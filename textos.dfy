/** The class Texto: a fixed-capacity array of entries whose filled prefix [0, total) is the
    catalogue, kept strictly ordered ignoring case. Every method is proved against the value-level
    functions of Palabras and Informes. */
module Textos {
  import opened Ascii
  import opened Palabras
  import opened Informes

  class Texto {
    var palabras: array<Palabra>
    var total: nat

    /** The class invariant: the fill counter is within the array and the filled prefix is a
        well-formed catalogue (strictly ordered ignoring case, frequencies at least 1). */
    ghost predicate Valid()
      reads this, palabras
    {
      total <= palabras.Length && WellFormed(palabras[..total], palabras.Length)
    }

    /** The catalogue the object holds. */
    ghost function Entries(): seq<Palabra>
      reads this, palabras
      requires total <= palabras.Length
    {
      palabras[..total]
    }

    /** Texto(n): an empty catalogue with room for n words. The slots beyond total are never read;
        they start as a placeholder entry where the source leaves null. */
    constructor (n: nat)
      ensures Valid() && fresh(palabras) && palabras.Length == n && Entries() == []
    {
      palabras := new Palabra[n](_ => Palabra("", 0));
      total := 0;
    }

    /** textoCompleto: true exactly when no further word can be added. */
    function TextoCompleto(): (r: bool)
      reads this, palabras
      requires total <= palabras.Length
      ensures r <==> |Entries()| == palabras.Length
      ensures r ==> forall w :: IndexOf(Entries(), w) == -1 ==> AddOne(Entries(), w, palabras.Length) == Entries()
    {
      total == palabras.Length
    }

    /** totalPalabras: the number of distinct words held, never more than the capacity. */
    function TotalPalabras(): (r: int)
      reads this, palabras
      requires total <= palabras.Length
      ensures r == |Entries()| && 0 <= r <= palabras.Length
    {
      total
    }

    /** getPalabra(p): the entry at position p, or nothing (null) when p is not a filled slot. */
    function GetPalabra(p: int): (r: Option<Palabra>)
      reads this, palabras
      requires total <= palabras.Length
      ensures r.None? <==> p < 0 || p >= |Entries()|
      ensures r.Some? ==> r.value == Entries()[p]
    {
      if p < 0 || p >= total then None else Some(palabras[p])
    }

    /** estaPalabra(w): a linear scan for the first entry equal to w ignoring case. */
    method EstaPalabra(w: string) returns (r: int)
      requires total <= palabras.Length
      ensures r == IndexOf(Entries(), w)
    {
      var i := 0;
      while i < total
        invariant 0 <= i <= total
        invariant forall k :: 0 <= k < i ==> !EqualsIgnoreCase(palabras[k].palabra, w)
      {
        if EqualsIgnoreCase(palabras[i].palabra, w) {
          return i;
        }
        i := i + 1;
      }
      return -1;
    }

    /** insertarPalabraEnOrden(w): when w is absent and there is room, open a slot in order and
        store (w, 1) there; otherwise do nothing. */
    method InsertarPalabraEnOrden(w: string)
      requires Valid()
      modifies this`total, palabras
      ensures Valid()
      ensures Entries() == if IndexOf(old(Entries()), w) == -1 && old(total) < palabras.Length
                           then InsertOrdered(old(Entries()), w)
                           else old(Entries())
    {
      var k := EstaPalabra(w);
      var lleno := TextoCompleto();
      if k == -1 && !lleno {
        ghost var s0 := Entries();
        InsertarEnHueco(w);
        InsertWellFormed(s0, w, palabras.Length);
      }
    }

    /** The branch insertarPalabraEnOrden takes for an absent word with room: open the slot and
        store (w, 1) in it. An internal step of InsertarPalabraEnOrden (private code in the
        source): it neither needs nor keeps Valid(), so clients call InsertarPalabraEnOrden. */
    method InsertarEnHueco(w: string)
      requires total < palabras.Length
      modifies this`total, palabras
      ensures total <= palabras.Length
      ensures palabras[..total] == InsertOrdered(old(palabras[..total]), w)
    {
      ghost var s0 := palabras[..total];
      var hueco := DesplazarMayores(w);
      InsertionPointAt(s0, w, hueco);
      palabras[hueco] := Nueva(w);
      total := total + 1;
      ghost var r := InsertOrdered(s0, w);
      assert |palabras[..total]| == |r|;
      forall j | 0 <= j < total
        ensures palabras[..total][j] == r[j]
      {
        if j > hueco {
          assert r[j] == s0[j - 1];
        }
      }
    }

    /** The right-shift loop of insertarPalabraEnOrden: from the last entry down, every entry that
        compares greater than w moves one slot right. The answer is the slot left free: every
        entry from it on compares greater than w, and the one before it does not. An internal
        step of InsertarPalabraEnOrden; it leaves the catalogue with a gap to be filled. */
    method DesplazarMayores(w: string) returns (hueco: int)
      requires total < palabras.Length
      modifies palabras
      ensures 0 <= hueco <= total
      ensures GreaterFrom(old(palabras[..total]), hueco, w)
      ensures hueco > 0 ==> CompareIgnoreCase(old(palabras[hueco - 1]).palabra, w) <= 0
      ensures forall j :: 0 <= j < hueco ==> palabras[j] == old(palabras[j])
      ensures forall j :: hueco < j <= total ==> palabras[j] == old(palabras[j - 1])
    {
      ghost var s0 := palabras[..total];
      var aux: int := total - 1;
      while aux >= 0 && CompareIgnoreCase(palabras[aux].palabra, w) > 0
        invariant -1 <= aux < total < palabras.Length && |s0| == total
        invariant forall j :: 0 <= j <= aux ==> palabras[j] == old(palabras[j])
        invariant forall j :: aux + 1 < j <= total ==> palabras[j] == old(palabras[j - 1])
        invariant GreaterFrom(s0, aux + 1, w)
        decreases aux
      {
        palabras[aux + 1] := palabras[aux];
        aux := aux - 1;
      }
      hueco := aux + 1;
    }

    /** addPalabras on the tokens of one line: each token is counted if known, inserted in order if
        there is room, and dropped otherwise. */
    method AddPalabras(tokens: seq<string>)
      requires Valid()
      modifies this`total, palabras
      ensures Valid()
      ensures Entries() == AddAll(old(Entries()), tokens, palabras.Length)
    {
      var j := 0;
      while j < |tokens|
        invariant 0 <= j <= |tokens|
        invariant Valid()
        invariant AddAll(Entries(), tokens[j..], palabras.Length) == AddAll(old(Entries()), tokens, palabras.Length)
      {
        ghost var s := Entries();
        var k := EstaPalabra(tokens[j]);
        if k >= 0 {
          var pos := EstaPalabra(tokens[j]);
          palabras[pos] := Incrementar(palabras[pos]);
          assert Entries() == s[pos := Incrementar(s[pos])];
        } else {
          var lleno := TextoCompleto();
          if !lleno {
            InsertarPalabraEnOrden(tokens[j]);
          }
        }
        assert Entries() == AddOne(s, tokens[j], palabras.Length);
        AddOneWellFormed(s, tokens[j], palabras.Length);
        assert tokens[j..][1..] == tokens[j + 1..];
        j := j + 1;
      }
    }

    /** borrarDeFrecuenciaMenor(f): remove every entry whose frequency is below f, keeping the
        order of the rest, and answer how many were removed. */
    method BorrarDeFrecuenciaMenor(f: int) returns (b: int)
      requires Valid()
      modifies this`total, palabras
      ensures Valid()
      ensures Entries() == Survivors(old(Entries()), f)
      ensures b == CountBelow(old(Entries()), f) && total == old(total) - b
    {
      ghost var s0 := Entries();
      b := Compactar(f);
      SurvivorsWellFormed(s0, f, palabras.Length);
    }

    /** The loop of borrarDeFrecuenciaMenor: scanning from the last entry down, each entry below
        f is removed by shifting the entries after it one slot left. An internal step of
        BorrarDeFrecuenciaMenor, which is what clients call. */
    method Compactar(f: int) returns (b: int)
      requires total <= palabras.Length
      modifies this`total, palabras
      ensures total <= palabras.Length
      ensures palabras[..total] == Survivors(old(palabras[..total]), f)
      ensures b == CountBelow(old(palabras[..total]), f) && total == old(total) - b
    {
      ghost var s0 := palabras[..total];
      b := 0;
      var i: int := total - 1;
      while i >= 0
        invariant -1 <= i < total <= palabras.Length && i < |s0|
        invariant palabras[..i + 1] == s0[..i + 1]
        invariant palabras[i + 1..total] == SurvivorsFrom(s0, i + 1, f)
        invariant b == CountBelowFrom(s0, i + 1, f) && total + b == |s0|
        decreases i
      {
        assert s0[..i + 1][..i] == s0[..i];
        assert palabras[i] == s0[i];
        if palabras[i].frecuencia < f {
          DesplazarIzquierda(i);
          b := b + 1;
          total := total - 1;
        } else {
          assert palabras[i..total] == [palabras[i]] + palabras[i + 1..total];
        }
        i := i - 1;
      }
      SurvivorsFromIsSuffix(s0, 0, f);
      assert s0[0..] == s0;
    }

    /** System.arraycopy(palabras, i + 1, palabras, i, total - i - 1): the entries after slot i
        move one slot left over it. An internal step of Compactar; it does not update total. */
    method DesplazarIzquierda(i: int)
      requires 0 <= i < total <= palabras.Length
      modifies palabras
      ensures palabras[..i] == old(palabras[..i])
      ensures palabras[i..total - 1] == old(palabras[i + 1..total])
    {
      forall k | i <= k < total - 1 {
        palabras[k] := palabras[k + 1];
      }
    }

    /** capitalizarAlterna: every word in catalogue order, upper case except positions 3 to 5
        (and below the capacity), which are lower case. */
    method CapitalizarAlterna() returns (r: seq<string>)
      requires total <= palabras.Length
      ensures |r| == |Entries()|
      ensures forall j :: 0 <= j < |r| ==> r[j] == AlternateCase(Entries()[j].palabra, palabras.Length)
    {
      var res := new string[total](_ => "");
      var j := 0;
      while j < total
        invariant 0 <= j <= total
        invariant forall t :: 0 <= t < j ==> res[t] == AlternateCase(palabras[t].palabra, palabras.Length)
      {
        var w := palabras[j].palabra;
        var str := "";
        var k := 0;
        var l := 0;
        while l < |w|
          invariant 0 <= l <= |w| && k == l
          invariant str == AlternateCase(w, palabras.Length)[..l]
        {
          if k >= 3 && k < 6 && k < palabras.Length {
            str := str + [ToLower(w[k])];
          } else {
            str := str + [ToUpper(w[k])];
          }
          k := k + 1;
          l := l + 1;
        }
        res[j] := str;
        j := j + 1;
      }
      r := res[..];
    }

    /** calcularFrecuenciaLongitud: slot L of a 15-slot array counts the words of length L. A word
        of 15 or more characters overruns the array, which the model reports as None. */
    method CalcularFrecuenciaLongitud() returns (r: Option<seq<int>>)
      requires total <= palabras.Length
      ensures r.None? <==> exists i :: 0 <= i < |Entries()| && |Entries()[i].palabra| >= HistogramSize
      ensures r.Some? ==> r.value == Histogram(Entries(), HistogramSize)
    {
      var frecuenciaDeLongitud := new int[HistogramSize](_ => 0);
      assert frecuenciaDeLongitud[..] == Histogram(palabras[..0], HistogramSize);
      var i := 0;
      while i < total
        invariant 0 <= i <= total
        invariant forall t :: 0 <= t < i ==> |palabras[t].palabra| < HistogramSize
        invariant frecuenciaDeLongitud[..] == Histogram(palabras[..i], HistogramSize)
      {
        var len := |palabras[i].palabra|;
        if len >= HistogramSize {
          assert Entries()[i] == palabras[i];
          return None;
        }
        HistogramSnoc(palabras[..total], i, HistogramSize);
        assert palabras[..total][..i] == palabras[..i] && palabras[..total][..i + 1] == palabras[..i + 1];
        frecuenciaDeLongitud[len] := frecuenciaDeLongitud[len] + 1;
        i := i + 1;
      }
      assert palabras[..i] == Entries();
      return Some(frecuenciaDeLongitud[..]);
    }

    /** palabrasConLetrasRepetidas as the source writes it: the counting pass tests entry 0 on
        every turn, and the filling pass overruns the array (None) when more words pass than were
        counted; unfilled slots stay null (None). */
    method PalabrasConLetrasRepetidasAsWritten(p: string -> bool) returns (r: Option<seq<Option<string>>>)
      requires total <= palabras.Length
      ensures r == RepeatedAsWritten(Entries(), p)
    {
      ghost var s := palabras[..total];
      var contador := 0;
      var i := 0;
      var j := 0;
      while j < total
        invariant 0 <= j <= total
        invariant contador == if |s| > 0 && p(s[0].palabra) then j else 0
      {
        if p(palabras[i].palabra) {
          contador := contador + 1;
        }
        j := j + 1;
      }
      var letrasRepetidas := new Option<string>[contador](_ => None);
      var k := 0;
      while k < total
        invariant 0 <= k <= total
        invariant i == |Matching(s[..k], p)| <= contador
        invariant forall t :: 0 <= t < i ==> letrasRepetidas[t] == Some(Matching(s[..k], p)[t])
        invariant forall t :: i <= t < contador ==> letrasRepetidas[t] == None
      {
        MatchingSnoc(s, k, p);
        assert s[k] == palabras[k];
        if p(palabras[k].palabra) {
          if i >= contador {
            MatchingPrefix(s, k + 1, p);
            return None;
          }
          letrasRepetidas[i] := Some(palabras[k].palabra);
          i := i + 1;
        }
        k := k + 1;
      }
      assert s[..k] == s;
      ghost var m := Matching(s, p);
      assert letrasRepetidas[..] == seq(contador, t requires 0 <= t < contador => if t < |m| then Some(m[t]) else None);
      return Some(letrasRepetidas[..]);
    }

    /** palabrasConLetrasRepetidas as evidently intended: the words passing p, in catalogue order,
        counted and then copied with the same index. */
    method PalabrasConLetrasRepetidas(p: string -> bool) returns (r: seq<string>)
      requires total <= palabras.Length
      ensures r == Matching(Entries(), p)
    {
      ghost var s := palabras[..total];
      var contador := 0;
      var j := 0;
      while j < total
        invariant 0 <= j <= total
        invariant contador == |Matching(s[..j], p)|
      {
        MatchingSnoc(s, j, p);
        assert s[j] == palabras[j];
        if p(palabras[j].palabra) {
          contador := contador + 1;
        }
        j := j + 1;
      }
      assert s[..j] == s;
      var letrasRepetidas := new string[contador](_ => "");
      var i := 0;
      var k := 0;
      while k < total
        invariant 0 <= k <= total
        invariant i == |Matching(s[..k], p)| <= contador
        invariant forall t :: 0 <= t < i ==> letrasRepetidas[t] == Matching(s[..k], p)[t]
      {
        MatchingSnoc(s, k, p);
        MatchingPrefix(s, k + 1, p);
        assert s[k] == palabras[k];
        if p(palabras[k].palabra) {
          letrasRepetidas[i] := palabras[k].palabra;
          i := i + 1;
        }
        k := k + 1;
      }
      assert s[..k] == s;
      return letrasRepetidas[..];
    }
  }
}
