/** What the three reports of Texto compute from the catalogue, and what is proved about them:
    the length histogram (calcularFrecuenciaLongitud), the alternating-case transform
    (capitalizarAlterna) and the repeated-letter filter (palabrasConLetrasRepetidas). */
module Informes {
  import opened Ascii
  import opened Palabras

  // ---------------------------------------------------------------- length histogram

  /** The size of the array calcularFrecuenciaLongitud allocates. */
  const HistogramSize := 15

  /** How many entries have a word of length n. */
  function CountLength(s: seq<Palabra>, n: int): nat {
    if s == [] then 0
    else CountLength(s[..|s| - 1], n) + (if |s[|s| - 1].palabra| == n then 1 else 0)
  }

  /** Slot n counts the entries of length n. */
  function Histogram(s: seq<Palabra>, size: nat): seq<int> {
    seq(size, n requires 0 <= n < size => CountLength(s, n))
  }

  function Sum(h: seq<int>): int {
    if h == [] then 0 else Sum(h[..|h| - 1]) + h[|h| - 1]
  }

  lemma {:induction false} SumIncrement(h: seq<int>, i: int)
    requires 0 <= i < |h|
    ensures Sum(h[i := h[i] + 1]) == Sum(h) + 1
  {
    var h' := h[i := h[i] + 1];
    if i < |h| - 1 {
      assert h'[..|h| - 1] == h[..|h| - 1][i := h[i] + 1];
      SumIncrement(h[..|h| - 1], i);
    } else {
      assert h'[..|h| - 1] == h[..|h| - 1];
    }
  }

  /** Counting one more entry bumps exactly the slot of its length. */
  lemma HistogramSnoc(s: seq<Palabra>, k: int, size: nat)
    requires 0 <= k < |s| && |s[k].palabra| < size
    ensures Histogram(s[..k + 1], size) ==
            Histogram(s[..k], size)[|s[k].palabra| := Histogram(s[..k], size)[|s[k].palabra|] + 1]
  {
    assert s[..k + 1][..k] == s[..k];
  }

  /** When every word fits the histogram, its slots add up to the number of entries. */
  lemma {:induction false} HistogramSum(s: seq<Palabra>, size: nat)
    requires forall i :: 0 <= i < |s| ==> |s[i].palabra| < size
    ensures Sum(Histogram(s, size)) == |s|
  {
    if s == [] {
      var h := Histogram(s, size);
      assert forall n :: 0 <= n < size ==> h[n] == 0;
      ZeroSum(h);
    } else {
      var s' := s[..|s| - 1];
      var len := |s[|s| - 1].palabra|;
      HistogramSum(s', size);
      var h' := Histogram(s', size);
      assert Histogram(s, size) == h'[len := h'[len] + 1];
      SumIncrement(h', len);
    }
  }

  lemma {:induction false} ZeroSum(h: seq<int>)
    requires forall n :: 0 <= n < |h| ==> h[n] == 0
    ensures Sum(h) == 0
  {
    if h != [] {
      ZeroSum(h[..|h| - 1]);
    }
  }

  /** The histogram of {bird, cat, dog}: two words of length 3, one of length 4. */
  lemma HistogramExample()
    ensures Histogram([Palabra("bird", 1), Palabra("cat", 1), Palabra("dog", 1)], HistogramSize) ==
            [0, 0, 0, 2, 1, 0, 0, 0, 0, 0, 0, 0, 0, 0, 0]
  {
    var s := [Palabra("bird", 1), Palabra("cat", 1), Palabra("dog", 1)];
    assert s[..2] == [Palabra("bird", 1), Palabra("cat", 1)];
    assert s[..2][..1] == [Palabra("bird", 1)];
    assert s[..2][..1][..0] == [];
    var h := Histogram(s, HistogramSize);
    forall n | 0 <= n < HistogramSize
      ensures h[n] == (if n == 3 then 2 else if n == 4 then 1 else 0)
    {
      assert h[n] == CountLength(s, n);
      assert |"bird"| == 4 && |"cat"| == 3 && |"dog"| == 3;
      assert CountLength(s[..2][..1], n) == CountLength(s[..2][..1][..0], n) + (if n == 4 then 1 else 0);
      assert CountLength(s[..2], n) == CountLength(s[..2][..1], n) + (if n == 3 then 1 else 0);
      assert CountLength(s, n) == CountLength(s[..2], n) + (if n == 3 then 1 else 0);
    }
  }

  // ---------------------------------------------------------------- alternating case

  /** The positions capitalizarAlterna lower-cases: 3, 4 and 5, as long as the position is also
      below the catalogue's capacity cap (the source tests the array length, not the word's). */
  predicate InLowerWindow(k: int, cap: int) {
    3 <= k < 6 && k < cap
  }

  /** One word of capitalizarAlterna. */
  function AlternateCase(w: string, cap: int): string {
    seq(|w|, k requires 0 <= k < |w| => if InLowerWindow(k, cap) then ToLower(w[k]) else ToUpper(w[k]))
  }

  /** A letter of the result is lower case exactly in the window and upper case everywhere else;
      every other character is left as it was. */
  lemma AlternateCaseShape(w: string, cap: int, k: int)
    requires 0 <= k < |w|
    ensures |AlternateCase(w, cap)| == |w|
    ensures IsLetter(w[k]) ==> (IsLower(AlternateCase(w, cap)[k]) <==> InLowerWindow(k, cap))
    ensures IsLetter(w[k]) ==> (IsUpper(AlternateCase(w, cap)[k]) <==> !InLowerWindow(k, cap))
    ensures !IsLetter(w[k]) ==> AlternateCase(w, cap)[k] == w[k]
  {
  }

  /** The transform only changes case: the result is the same word ignoring case. */
  lemma AlternateCaseSameWord(w: string, cap: int)
    ensures EqualsIgnoreCase(AlternateCase(w, cap), w)
  {
  }

  /** Applying the transform to its own result changes nothing. */
  lemma AlternateCaseIdempotent(w: string, cap: int)
    ensures AlternateCase(AlternateCase(w, cap), cap) == AlternateCase(w, cap)
  {
  }

  /** "banana" becomes "BANana" in a catalogue of capacity 6 or more; with capacity 4 only
      position 3 is lower-cased. */
  lemma BananaExample(cap: int)
    requires cap >= 4
    ensures AlternateCase("banana", cap) == if cap >= 6 then "BANana" else if cap == 5 then "BANanA" else "BANaNA"
  {
  }

  // ---------------------------------------------------------------- repeated letters

  /** Utilidades.tieneLetrasRepetidas given its evident meaning: some character occurs at least
      twice, ignoring case. The catalogue's methods take the test as a parameter. */
  predicate TieneLetrasRepetidas(w: string) {
    exists i, j :: 0 <= i < j < |w| && ToLower(w[i]) == ToLower(w[j])
  }

  /** The words of the entries that pass p, in catalogue order. */
  function Matching(s: seq<Palabra>, p: string -> bool): seq<string> {
    if s == [] then []
    else Matching(s[..|s| - 1], p) + (if p(s[|s| - 1].palabra) then [s[|s| - 1].palabra] else [])
  }

  /** Exactly the passing words are reported, and no more of them than there are entries. */
  lemma {:induction false} MatchingExactly(s: seq<Palabra>, p: string -> bool)
    ensures |Matching(s, p)| <= |s|
    ensures forall i :: 0 <= i < |s| && p(s[i].palabra) ==> s[i].palabra in Matching(s, p)
    ensures forall x :: x in Matching(s, p) ==> p(x) && exists i :: 0 <= i < |s| && s[i].palabra == x
  {
    if s != [] {
      var s' := s[..|s| - 1];
      MatchingExactly(s', p);
      forall x | x in Matching(s, p) ensures p(x) && exists i :: 0 <= i < |s| && s[i].palabra == x {
        if x in Matching(s', p) {
          var i :| 0 <= i < |s'| && s'[i].palabra == x;
          assert s[i] == s'[i];
        }
      }
      forall i | 0 <= i < |s| - 1 && p(s[i].palabra) ensures s[i].palabra in Matching(s, p) {
        assert s[i] == s'[i];
      }
    }
  }

  /** Scanning one more entry appends its word when it passes. */
  lemma MatchingSnoc(s: seq<Palabra>, k: int, p: string -> bool)
    requires 0 <= k < |s|
    ensures Matching(s[..k + 1], p) ==
            Matching(s[..k], p) + (if p(s[k].palabra) then [s[k].palabra] else [])
  {
    assert s[..k + 1][..k] == s[..k];
  }

  /** The words reported for a prefix of the catalogue begin the words reported for all of it. */
  lemma {:induction false} MatchingPrefix(s: seq<Palabra>, k: int, p: string -> bool)
    requires 0 <= k <= |s|
    ensures |Matching(s[..k], p)| <= |Matching(s, p)|
    ensures Matching(s, p)[..|Matching(s[..k], p)|] == Matching(s[..k], p)
    decreases |s| - k
  {
    if k == |s| {
      assert s[..k] == s;
    } else {
      var s' := s[..|s| - 1];
      MatchingPrefix(s', k, p);
      assert s'[..k] == s[..k];
    }
  }

  /** palabrasConLetrasRepetidas as written. The counting pass tests entry 0 on every turn, so it
      counts all entries or none; the filling pass stores each passing word at the next free
      index, and fails with an index overrun (None) once more words pass than were counted.
      Slots left unfilled hold null (None). */
  function RepeatedAsWritten(s: seq<Palabra>, p: string -> bool): Option<seq<Option<string>>> {
    var count := if |s| > 0 && p(s[0].palabra) then |s| else 0;
    var m := Matching(s, p);
    if |m| > count then None
    else Some(seq(count, i requires 0 <= i < count => if i < |m| then Some(m[i]) else None))
  }

  /** What the as-written report depends on: only entry 0 decides the length of the array. */
  lemma RepeatedAsWrittenShape(s: seq<Palabra>, p: string -> bool)
    ensures |s| > 0 && p(s[0].palabra) ==>
              RepeatedAsWritten(s, p).Some? && |RepeatedAsWritten(s, p).value| == |s|
    ensures !(|s| > 0 && p(s[0].palabra)) ==>
              (RepeatedAsWritten(s, p).Some? <==> Matching(s, p) == [])
  {
    MatchingExactly(s, p);
  }

  /** An ordered catalogue whose first word has no repeated letter but a later one has: the
      report as written overruns its empty array, where the evident intent is ["cc"]. */
  lemma RepeatedAsWrittenOverruns()
    ensures Ordered([Palabra("ab", 1), Palabra("cc", 1)])
    ensures RepeatedAsWritten([Palabra("ab", 1), Palabra("cc", 1)], TieneLetrasRepetidas) == None
    ensures Matching([Palabra("ab", 1), Palabra("cc", 1)], TieneLetrasRepetidas) == ["cc"]
  {
    assert !TieneLetrasRepetidas("ab") by {
      assert ToLower("ab"[0]) != ToLower("ab"[1]);
    }
    assert TieneLetrasRepetidas("cc") by {
      assert ToLower("cc"[0]) == ToLower("cc"[1]);
    }
    var s := [Palabra("ab", 1), Palabra("cc", 1)];
    assert s[..1] == [Palabra("ab", 1)];
    assert [Palabra("ab", 1)][..0] == [];
  }

  /** Of "hello" and "world" only "hello" has a repeated letter. */
  lemma HelloWorldExample()
    ensures Matching([Palabra("hello", 1), Palabra("world", 1)], TieneLetrasRepetidas) == ["hello"]
  {
    assert TieneLetrasRepetidas("hello") by {
      assert ToLower("hello"[2]) == ToLower("hello"[3]);
    }
    assert !TieneLetrasRepetidas("world");
    var s := [Palabra("hello", 1), Palabra("world", 1)];
    assert s[..1] == [Palabra("hello", 1)];
    assert [Palabra("hello", 1)][..0] == [];
  }
}
