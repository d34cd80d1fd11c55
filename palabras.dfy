/** The catalogue as a value: the filled prefix of Texto's array, the functions that say what each
    operation of Texto does to it, and the lemmas that state the catalogue's invariants. */
module Palabras {
  import opened Ascii

  datatype Option<T> = None | Some(value: T)

  /** One entry: the word as first seen and the number of times it has occurred. */
  datatype Palabra = Palabra(palabra: string, frecuencia: int)

  /** new Palabra(w): a word seen once. */
  function Nueva(w: string): Palabra { Palabra(w, 1) }

  /** Palabra.incrementar: one more occurrence. */
  function Incrementar(e: Palabra): Palabra { e.(frecuencia := e.frecuencia + 1) }

  /** Sorted case-insensitively, ties allowed. */
  predicate Sorted(s: seq<Palabra>) {
    forall i, j :: 0 <= i < j < |s| ==> CompareIgnoreCase(s[i].palabra, s[j].palabra) <= 0
  }

  /** No two entries are equal ignoring case. */
  predicate Distinct(s: seq<Palabra>) {
    forall i, j :: 0 <= i < j < |s| ==> !EqualsIgnoreCase(s[i].palabra, s[j].palabra)
  }

  /** Strictly increasing case-insensitively: sorted and free of duplicates at once. */
  predicate Ordered(s: seq<Palabra>) {
    forall i, j :: 0 <= i < j < |s| ==> CompareIgnoreCase(s[i].palabra, s[j].palabra) < 0
  }

  /** The catalogue invariant for capacity cap. */
  predicate WellFormed(s: seq<Palabra>, cap: int) {
    |s| <= cap && Ordered(s) && forall i :: 0 <= i < |s| ==> s[i].frecuencia >= 1
  }

  lemma OrderedIffSortedAndDistinct(s: seq<Palabra>)
    ensures Ordered(s) <==> Sorted(s) && Distinct(s)
  {
    forall i, j | 0 <= i < j < |s| {
      CompareZeroIffEquals(s[i].palabra, s[j].palabra);
    }
  }

  // ---------------------------------------------------------------- lookup

  /** Texto.estaPalabra: the first position holding w ignoring case, or -1. */
  function IndexOf(s: seq<Palabra>, w: string): (r: int)
    ensures -1 <= r < |s|
    ensures r == -1 <==> forall i :: 0 <= i < |s| ==> !EqualsIgnoreCase(s[i].palabra, w)
    ensures r >= 0 ==> EqualsIgnoreCase(s[r].palabra, w)
    ensures r >= 0 ==> forall i :: 0 <= i < r ==> !EqualsIgnoreCase(s[i].palabra, w)
  {
    if s == [] then -1
    else if EqualsIgnoreCase(s[0].palabra, w) then 0
    else
      var k := IndexOf(s[1..], w);
      assert forall i :: 0 < i < |s| ==> s[i] == s[1..][i - 1];
      if k < 0 then -1 else k + 1
  }

  /** In a catalogue without duplicates the lookup finds the one entry for w, if any. */
  lemma IndexOfUnique(s: seq<Palabra>, w: string, i: int)
    requires Distinct(s)
    requires 0 <= i < |s| && EqualsIgnoreCase(s[i].palabra, w)
    ensures IndexOf(s, w) == i
  {
    var k := IndexOf(s, w);
    if k != i {
      assert k < i;
      EqualsIgnoreCaseTransitive(s[k].palabra, w, s[i].palabra);
      assert false;
    }
  }

  // ---------------------------------------------------------------- ordered insertion

  /** Where insertarPalabraEnOrden puts w: one past the last entry that does not compare
      greater than w, found scanning from the right. */
  function InsertionPoint(s: seq<Palabra>, w: string): (p: nat)
    ensures p <= |s|
    ensures forall i :: p <= i < |s| ==> CompareIgnoreCase(s[i].palabra, w) > 0
    ensures p > 0 ==> CompareIgnoreCase(s[p - 1].palabra, w) <= 0
  {
    if s == [] then 0
    else if CompareIgnoreCase(s[|s| - 1].palabra, w) > 0 then InsertionPoint(s[..|s| - 1], w)
    else |s|
  }

  /** The catalogue after insertarPalabraEnOrden(w) has opened a slot and placed a new entry. */
  function InsertOrdered(s: seq<Palabra>, w: string): seq<Palabra> {
    var p := InsertionPoint(s, w);
    s[..p] + [Nueva(w)] + s[p..]
  }

  /** The insertion entry by entry: the entries before the insertion point stay in place, (w, 1)
      comes next, and the rest move one position right. */
  lemma InsertOrderedAt(s: seq<Palabra>, w: string)
    ensures |InsertOrdered(s, w)| == |s| + 1
    ensures forall i :: 0 <= i < InsertionPoint(s, w) ==> InsertOrdered(s, w)[i] == s[i]
    ensures InsertOrdered(s, w)[InsertionPoint(s, w)] == Nueva(w)
    ensures forall i :: InsertionPoint(s, w) < i <= |s| ==> InsertOrdered(s, w)[i] == s[i - 1]
  {
  }

  /** In an ordered catalogue without w, the entries before the insertion point compare below w. */
  lemma BelowInsertionPoint(s: seq<Palabra>, w: string)
    requires Ordered(s) && IndexOf(s, w) == -1
    ensures forall i :: 0 <= i < InsertionPoint(s, w) ==> CompareIgnoreCase(s[i].palabra, w) < 0
  {
    var p := InsertionPoint(s, w);
    forall i | 0 <= i < p ensures CompareIgnoreCase(s[i].palabra, w) < 0 {
      CompareZeroIffEquals(s[p - 1].palabra, w);
      if i < p - 1 {
        CompareTransitive(s[i].palabra, s[p - 1].palabra, w);
      }
    }
  }

  /** Inserting an absent word keeps the catalogue strictly ordered. */
  lemma InsertKeepsOrder(s: seq<Palabra>, w: string)
    requires Ordered(s) && IndexOf(s, w) == -1
    ensures Ordered(InsertOrdered(s, w))
  {
    var p := InsertionPoint(s, w);
    var r := InsertOrdered(s, w);
    BelowInsertionPoint(s, w);
    forall i | p <= i < |s| ensures CompareIgnoreCase(w, s[i].palabra) < 0 {
      CompareAntisymmetric(s[i].palabra, w);
    }
    InsertOrderedAt(s, w);
    forall i, j | 0 <= i < j < |r| ensures CompareIgnoreCase(r[i].palabra, r[j].palabra) < 0 {
      if j < p || (i < p && j > p) || i > p {
      } else if j == p {
      } else {
        assert i == p;
      }
    }
  }

  /** InsertionPoint is the one place with everything after it greater than w and the entry
      before it not greater. It follows from the two ensures of InsertionPoint: a slot p below q
      would make s[q - 1] greater than w, and a slot p above q would make s[p - 1] greater. */
  lemma InsertionPointIs(s: seq<Palabra>, w: string, q: int)
    requires 0 <= q <= |s|
    requires forall j :: q <= j < |s| ==> CompareIgnoreCase(s[j].palabra, w) > 0
    requires q > 0 ==> CompareIgnoreCase(s[q - 1].palabra, w) <= 0
    ensures InsertionPoint(s, w) == q
  {
  }

  /** Every entry from index k on compares greater than w; stated one entry at a time, the way
      the right-shift loop of insertarPalabraEnOrden discovers it. */
  predicate GreaterFrom(s: seq<Palabra>, k: nat, w: string)
    decreases |s| - k
  {
    k >= |s| || (CompareIgnoreCase(s[k].palabra, w) > 0 && GreaterFrom(s, k + 1, w))
  }

  lemma {:induction false} GreaterFromAll(s: seq<Palabra>, k: nat, w: string)
    requires GreaterFrom(s, k, w)
    ensures forall j :: k <= j < |s| ==> CompareIgnoreCase(s[j].palabra, w) > 0
    decreases |s| - k
  {
    if k < |s| {
      GreaterFromAll(s, k + 1, w);
    }
  }

  /** Where the right-shift loop stops is the insertion point: the entries it passed are greater
      than w and the one it stopped at is not. */
  lemma InsertionPointAt(s: seq<Palabra>, w: string, q: nat)
    requires q <= |s| && GreaterFrom(s, q, w)
    requires q > 0 ==> CompareIgnoreCase(s[q - 1].palabra, w) <= 0
    ensures InsertionPoint(s, w) == q
  {
    GreaterFromAll(s, q, w);
    InsertionPointIs(s, w, q);
  }

  /** Inserting adds exactly the new entry (w, 1): the old entries, with their frequencies,
      are all still there, and the catalogue grows by one. */
  lemma InsertAddsOneEntry(s: seq<Palabra>, w: string)
    ensures |InsertOrdered(s, w)| == |s| + 1
    ensures multiset(InsertOrdered(s, w)) == multiset(s) + multiset{Nueva(w)}
    ensures IndexOf(InsertOrdered(s, w), w) >= 0
  {
    var p := InsertionPoint(s, w);
    assert s == s[..p] + s[p..];
    assert InsertOrdered(s, w)[p] == Nueva(w);
  }

  lemma InsertWellFormed(s: seq<Palabra>, w: string, cap: int)
    requires WellFormed(s, cap) && IndexOf(s, w) == -1 && |s| < cap
    ensures WellFormed(InsertOrdered(s, w), cap)
  {
    InsertKeepsOrder(s, w);
    InsertOrderedAt(s, w);
  }

  // ---------------------------------------------------------------- ingestion

  /** One token of addPalabras: count it if known, insert it if there is room, else drop it. */
  function AddOne(s: seq<Palabra>, w: string, cap: int): (r: seq<Palabra>)
    ensures IndexOf(s, w) >= 0 ==> |r| == |s|
    ensures IndexOf(s, w) == -1 && |s| < cap ==> |r| == |s| + 1
    ensures IndexOf(s, w) == -1 && |s| >= cap ==> r == s
  {
    var k := IndexOf(s, w);
    if k >= 0 then s[k := Incrementar(s[k])]
    else if |s| < cap then InsertAddsOneEntry(s, w); InsertOrdered(s, w)
    else s
  }

  /** addPalabras on a whole token sequence, token by token from the left. */
  function AddAll(s: seq<Palabra>, ws: seq<string>, cap: int): seq<Palabra>
    decreases |ws|
  {
    if ws == [] then s else AddAll(AddOne(s, ws[0], cap), ws[1..], cap)
  }

  lemma AddOneWellFormed(s: seq<Palabra>, w: string, cap: int)
    requires WellFormed(s, cap)
    ensures WellFormed(AddOne(s, w, cap), cap)
  {
    var k := IndexOf(s, w);
    if k >= 0 {
      var r := s[k := Incrementar(s[k])];
      assert forall i :: 0 <= i < |s| ==> r[i].palabra == s[i].palabra;
    } else if |s| < cap {
      InsertWellFormed(s, w, cap);
    }
  }

  /** Ingestion keeps the catalogue sorted, free of duplicates and within its capacity. */
  lemma {:induction false} AddAllWellFormed(s: seq<Palabra>, ws: seq<string>, cap: int)
    requires WellFormed(s, cap)
    ensures WellFormed(AddAll(s, ws, cap), cap)
    decreases |ws|
  {
    if ws != [] {
      AddOneWellFormed(s, ws[0], cap);
      AddAllWellFormed(AddOne(s, ws[0], cap), ws[1..], cap);
    }
  }

  /** The recorded frequency of w: the sum over the entries equal to w ignoring case. */
  function FreqOf(s: seq<Palabra>, w: string): int {
    if s == [] then 0
    else (if EqualsIgnoreCase(s[0].palabra, w) then s[0].frecuencia else 0) + FreqOf(s[1..], w)
  }

  /** How many tokens are w ignoring case. */
  function Occurrences(ws: seq<string>, w: string): nat {
    if ws == [] then 0
    else (if EqualsIgnoreCase(ws[0], w) then 1 else 0) + Occurrences(ws[1..], w)
  }

  lemma {:induction false} FreqOfConcat(a: seq<Palabra>, b: seq<Palabra>, w: string)
    ensures FreqOf(a + b, w) == FreqOf(a, w) + FreqOf(b, w)
  {
    if a == [] {
      assert a + b == b;
    } else {
      assert (a + b)[1..] == a[1..] + b;
      FreqOfConcat(a[1..], b, w);
    }
  }

  /** In a catalogue without duplicates FreqOf is the frequency of the entry the lookup finds. */
  lemma {:induction false} FreqOfIsLookup(s: seq<Palabra>, w: string)
    requires Distinct(s)
    ensures FreqOf(s, w) == (if IndexOf(s, w) >= 0 then s[IndexOf(s, w)].frecuencia else 0)
  {
    if s != [] {
      assert Distinct(s[1..]) by {
        forall i, j | 0 <= i < j < |s| - 1 ensures !EqualsIgnoreCase(s[1..][i].palabra, s[1..][j].palabra) {
          assert s[1..][i] == s[i + 1] && s[1..][j] == s[j + 1];
        }
      }
      FreqOfIsLookup(s[1..], w);
      if EqualsIgnoreCase(s[0].palabra, w) {
        if IndexOf(s[1..], w) >= 0 {
          var k := IndexOf(s[1..], w);
          assert s[1..][k] == s[k + 1];
          EqualsIgnoreCaseTransitive(s[0].palabra, w, s[k + 1].palabra);
          assert false;
        }
      } else {
        assert forall i :: 0 < i < |s| ==> s[i] == s[1..][i - 1];
      }
    }
  }

  /** Counting a known token t changes FreqOf(_, w) only when t is w ignoring case. */
  lemma FreqIncrement(s: seq<Palabra>, t: string, w: string)
    requires IndexOf(s, t) >= 0
    ensures FreqOf(s[IndexOf(s, t) := Incrementar(s[IndexOf(s, t)])], w) ==
            FreqOf(s, w) + (if EqualsIgnoreCase(t, w) then 1 else 0)
  {
    var k := IndexOf(s, t);
    var x := Incrementar(s[k]);
    var a, b := s[..k], s[k + 1..];
    assert s == (a + [s[k]]) + b;
    assert s[k := x] == (a + [x]) + b;
    FreqOfConcat(a + [s[k]], b, w);
    FreqOfConcat(a, [s[k]], w);
    FreqOfConcat(a + [x], b, w);
    FreqOfConcat(a, [x], w);
    if EqualsIgnoreCase(t, w) {
      EqualsIgnoreCaseTransitive(s[k].palabra, t, w);
    } else if EqualsIgnoreCase(s[k].palabra, w) {
      EqualsIgnoreCaseTransitive(t, s[k].palabra, w);
    }
  }

  /** Inserting t raises FreqOf(_, w) by one when t is w ignoring case, else leaves it. */
  lemma FreqInsert(s: seq<Palabra>, t: string, w: string)
    ensures FreqOf(InsertOrdered(s, t), w) == FreqOf(s, w) + (if EqualsIgnoreCase(t, w) then 1 else 0)
  {
    var p := InsertionPoint(s, t);
    var a, b := s[..p], s[p..];
    assert s == a + b;
    assert InsertOrdered(s, t) == (a + [Nueva(t)]) + b;
    FreqOfConcat(a, b, w);
    FreqOfConcat(a + [Nueva(t)], b, w);
    FreqOfConcat(a, [Nueva(t)], w);
    assert FreqOf([Nueva(t)], w) == (if EqualsIgnoreCase(t, w) then 1 else 0);
  }

  /** One token raises the frequency of w by one exactly when the token is w (ignoring case)
      and is kept, that is, either already known or inserted into a catalogue with room. */
  lemma FreqAddOne(s: seq<Palabra>, t: string, cap: int, w: string)
    ensures FreqOf(AddOne(s, t, cap), w) ==
            FreqOf(s, w) + (if EqualsIgnoreCase(t, w) && (IndexOf(s, t) >= 0 || |s| < cap) then 1 else 0)
  {
    if IndexOf(s, t) >= 0 {
      FreqIncrement(s, t, w);
    } else if |s| < cap {
      FreqInsert(s, t, w);
    }
  }

  /** A word once known stays known. */
  lemma KnownStaysKnown(s: seq<Palabra>, t: string, cap: int, w: string)
    requires IndexOf(s, w) >= 0
    ensures IndexOf(AddOne(s, t, cap), w) >= 0
  {
    var m := IndexOf(s, w);
    var k := IndexOf(s, t);
    var r := AddOne(s, t, cap);
    if k >= 0 {
      assert r[m].palabra == s[m].palabra;
    } else if |s| < cap {
      var p := InsertionPoint(s, t);
      if m < p { assert r[m] == s[m]; } else { assert r[m + 1] == s[m]; }
    }
  }

  /** With room for every token, ingestion counts every occurrence of every word. */
  lemma {:induction false} AddAllCountsEverything(s: seq<Palabra>, ws: seq<string>, cap: int, w: string)
    requires |s| + |ws| <= cap
    ensures FreqOf(AddAll(s, ws, cap), w) == FreqOf(s, w) + Occurrences(ws, w)
    decreases |ws|
  {
    if ws != [] {
      FreqAddOne(s, ws[0], cap, w);
      AddAllCountsEverything(AddOne(s, ws[0], cap), ws[1..], cap, w);
    }
  }

  /** Even on a full catalogue a word already known has all its further occurrences counted. */
  lemma {:induction false} AddAllCountsKnown(s: seq<Palabra>, ws: seq<string>, cap: int, w: string)
    requires IndexOf(s, w) >= 0
    ensures FreqOf(AddAll(s, ws, cap), w) == FreqOf(s, w) + Occurrences(ws, w)
    decreases |ws|
  {
    if ws != [] {
      FreqAddOne(s, ws[0], cap, w);
      if EqualsIgnoreCase(ws[0], w) {
        var m := IndexOf(s, w);
        EqualsIgnoreCaseTransitive(s[m].palabra, w, ws[0]);
      }
      KnownStaysKnown(s, ws[0], cap, w);
      AddAllCountsKnown(AddOne(s, ws[0], cap), ws[1..], cap, w);
    }
  }

  /** The example of the class documentation, "y un mozo de campo y plaza": in a catalogue with
      room for its seven tokens, "y" is counted twice. */
  lemma MozoExample(cap: int)
    requires cap >= 7
    ensures FreqOf(AddAll([], ["y", "un", "mozo", "de", "campo", "y", "plaza"], cap), "y") == 2
  {
    AddAllCountsEverything([], ["y", "un", "mozo", "de", "campo", "y", "plaza"], cap, "y");
  }

  // ---------------------------------------------------------------- pruning

  /** The entries borrarDeFrecuenciaMenor(f) keeps, in their order. */
  function Survivors(s: seq<Palabra>, f: int): seq<Palabra> {
    if s == [] then []
    else (if s[0].frecuencia >= f then [s[0]] else []) + Survivors(s[1..], f)
  }

  /** How many entries have frequency below f. */
  function CountBelow(s: seq<Palabra>, f: int): nat {
    if s == [] then 0
    else (if s[0].frecuencia < f then 1 else 0) + CountBelow(s[1..], f)
  }

  /** The survivors and the removed count of the entries from position k on, by index: what the
      descending scan of borrarDeFrecuenciaMenor has settled once it is left of k. These restate
      Survivors and CountBelow by index only so that the loop invariant of Compactar can step
      from k + 1 to k; SurvivorsFromIsSuffix shows they agree with them. */
  function SurvivorsFrom(s: seq<Palabra>, k: nat, f: int): seq<Palabra>
    decreases |s| - k
  {
    if k >= |s| then [] else (if s[k].frecuencia >= f then [s[k]] else []) + SurvivorsFrom(s, k + 1, f)
  }

  function CountBelowFrom(s: seq<Palabra>, k: nat, f: int): nat
    decreases |s| - k
  {
    if k >= |s| then 0 else (if s[k].frecuencia < f then 1 else 0) + CountBelowFrom(s, k + 1, f)
  }

  lemma {:induction false} SurvivorsFromIsSuffix(s: seq<Palabra>, k: nat, f: int)
    requires k <= |s|
    ensures SurvivorsFrom(s, k, f) == Survivors(s[k..], f)
    ensures CountBelowFrom(s, k, f) == CountBelow(s[k..], f)
    decreases |s| - k
  {
    if k < |s| {
      SurvivorsFromIsSuffix(s, k + 1, f);
      assert s[k..][1..] == s[k + 1..];
    }
  }

  /** Exactly the entries below f go: an entry survives iff it was there with frequency >= f,
      and the survivors and the removed entries together account for the whole catalogue. */
  lemma {:induction false} SurvivorsAreExactlyTheFrequent(s: seq<Palabra>, f: int)
    ensures forall e :: e in Survivors(s, f) <==> e in s && e.frecuencia >= f
    ensures |Survivors(s, f)| + CountBelow(s, f) == |s|
  {
    if s != [] {
      SurvivorsAreExactlyTheFrequent(s[1..], f);
      assert s == [s[0]] + s[1..];
    }
  }

  /** Removing entries keeps the survivors in their relative order, so the catalogue stays ordered. */
  lemma {:induction false} SurvivorsOrdered(s: seq<Palabra>, f: int)
    requires Ordered(s)
    ensures Ordered(Survivors(s, f))
  {
    if s != [] {
      OrderedTail(s);
      SurvivorsOrdered(s[1..], f);
      SurvivorsAreExactlyTheFrequent(s[1..], f);
      var t := Survivors(s[1..], f);
      if s[0].frecuencia >= f {
        forall j | 0 <= j < |t| ensures CompareIgnoreCase(s[0].palabra, t[j].palabra) < 0 {
          assert t[j] in s[1..];
          var m :| 0 <= m < |s[1..]| && s[1..][m] == t[j];
          assert s[m + 1] == t[j];
        }
        OrderedCons(s[0], t);
      }
    }
  }

  lemma OrderedTail(s: seq<Palabra>)
    requires Ordered(s) && s != []
    ensures Ordered(s[1..])
  {
    forall i, j | 0 <= i < j < |s| - 1
      ensures CompareIgnoreCase(s[1..][i].palabra, s[1..][j].palabra) < 0
    {
      assert s[1..][i] == s[i + 1] && s[1..][j] == s[j + 1];
    }
  }

  lemma OrderedCons(e: Palabra, t: seq<Palabra>)
    requires Ordered(t)
    requires forall j :: 0 <= j < |t| ==> CompareIgnoreCase(e.palabra, t[j].palabra) < 0
    ensures Ordered([e] + t)
  {
    var r := [e] + t;
    forall i, j | 0 <= i < j < |r| ensures CompareIgnoreCase(r[i].palabra, r[j].palabra) < 0 {
      if i == 0 { assert r[j] == t[j - 1]; } else { assert r[i] == t[i - 1] && r[j] == t[j - 1]; }
    }
  }

  lemma SurvivorsWellFormed(s: seq<Palabra>, f: int, cap: int)
    requires WellFormed(s, cap)
    ensures WellFormed(Survivors(s, f), cap)
  {
    SurvivorsOrdered(s, f);
    SurvivorsAreExactlyTheFrequent(s, f);
    var r := Survivors(s, f);
    forall i | 0 <= i < |r| ensures r[i].frecuencia >= 1 {
      assert r[i] in s;
    }
  }
}
