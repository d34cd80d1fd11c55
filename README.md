# Texto: an ordered, fixed-capacity word catalogue

`Texto` keeps the distinct words of a text in an array `palabras` of fixed capacity `n`. Its
filled prefix `[0, total)` is the catalogue:

- each entry (`Palabra`) is a word and the number of times it has occurred;
- the entries are kept in case-insensitive alphabetical order;
- no two entries are equal ignoring case.

Words arrive a line at a time through `addPalabras`:

- a known word has its frequency incremented;
- a new word is inserted in order by `insertarPalabraEnOrden`, which shifts the greater entries one
  slot right;
- a new word that finds the catalogue full is dropped.

Three reports read the catalogue:

- a length histogram (`calcularFrecuenciaLongitud`);
- an alternating-case transform (`capitalizarAlterna`);
- the words with a repeated letter (`palabrasConLetrasRepetidas`).

`borrarDeFrecuenciaMenor` removes every entry whose frequency is below a threshold, shifting the
rest left.

The Dafny project has four modules.

- `Ascii`: `String.equalsIgnoreCase` and `String.compareToIgnoreCase` over ASCII case folding. The
  lemmas say that the comparison is zero exactly on equal-ignoring-case strings, that it is
  antisymmetric and that it is transitive.
- `Palabras`: the catalogue as a value (`seq<Palabra>`). It holds:
  - one function per operation: lookup, insertion point, insertion, one token, a token sequence,
    pruning;
  - the lemmas that state what they preserve and what they count.
- `Informes`: the three reports as functions, with their lemmas.
- `Textos`: the class `Texto`. Its fields are an `array<Palabra>` and the fill counter. Each
  method of the source is written with the source's own loops and is proved against the functions
  above.
  - The class invariant `Valid()` says that the counter is within the array and that the filled
    prefix is strictly ordered ignoring case, with frequencies of at least 1.
  - The two shifting loops are separate methods (`DesplazarMayores`, `Compactar`), whose contracts
    speak only of the array.

In three places the model follows the code where a reader might expect otherwise:

- Tokens may be empty strings, because `trim().split(...)` yields one on a blank line, and a
  leading one on a line such as ".a" that starts with a separator before a word. A line of
  separators only, such as ".", yields no tokens, since `split` drops trailing empty strings.
- The lower-case window of `capitalizarAlterna` is also bounded by the array capacity
  (`k < palabras.length`, Texto.java:182), not by the word's length.
- A word of 15 or more characters makes `calcularFrecuenciaLongitud` fail, although the method's
  documentation (Texto.java:223) calls 15 the longest length.

## Model

| member | source | states |
|---|---|---|
| Ascii.ToLower | Texto.java:183 | an upper-case letter becomes the same letter in lower case (32 code points on); any other character is unchanged |
| Ascii.ToUpper | Texto.java:187 | a lower-case letter becomes the same letter in upper case (32 code points back); any other character is unchanged |
| Ascii.EqualsIgnoreCase | Texto.java:90 | defines equalsIgnoreCase: the same length and the same characters once both are folded to lower case |
| Ascii.CompareIgnoreCase | Texto.java:111 | defines compareToIgnoreCase: the difference of the first pair of folded characters that differ, else the difference of the lengths; its properties are the three Compare lemmas below |
| Ascii.EqualsIgnoreCaseTransitive | Texto.java:90 | equality ignoring case is transitive and symmetric |
| Ascii.CompareZeroIffEquals | Texto.java:111 | compareToIgnoreCase is 0 exactly when the strings are equal ignoring case |
| Ascii.CompareAntisymmetric | Texto.java:111 | swapping the arguments of compareToIgnoreCase negates the result |
| Ascii.CompareTransitive | Texto.java:111 | "compares below" is transitive |
| Palabras.Nueva | Texto.java:115 | new Palabra(w): the word with frequency 1 |
| Palabras.Incrementar | Texto.java:72 | incrementar: the same word with its frequency one higher |
| Palabras.OrderedIffSortedAndDistinct | Texto.java:99-103 | strictly ordered ignoring case is the same as sorted plus free of duplicates ignoring case |
| Palabras.IndexOf | Texto.java:86-97 | the lookup is -1 exactly when no entry equals w ignoring case; otherwise it is an index in range, that entry equals w, and no earlier entry does |
| Palabras.IndexOfUnique | Texto.java:86-97 | in a catalogue without duplicates, the lookup finds the one entry equal to w |
| Palabras.InsertionPoint | Texto.java:110-114 | the slot the right-to-left scan stops at: every entry from it on compares greater than w, and the one before it does not |
| Palabras.InsertionPointIs | Texto.java:110-114 | that slot is unique: any q with the same two properties is the insertion point |
| Palabras.GreaterFromAll | Texto.java:111 | the scan's entry-by-entry finding "greater from k on" holds for every entry from k on |
| Palabras.InsertionPointAt | Texto.java:110-115 | where the scan stops is where the new entry belongs |
| Palabras.InsertOrdered | Texto.java:110-116 | the catalogue after the shift and store: the entries before the insertion point, then (w, 1), then the rest; its properties are InsertKeepsOrder and InsertAddsOneEntry |
| Palabras.InsertOrderedAt | Texto.java:110-116 | entry by entry: the entries before the insertion point stay, (w, 1) follows, and the rest move one position right |
| Palabras.BelowInsertionPoint | Texto.java:111 | in an ordered catalogue without w, every entry the scan did not pass compares below w |
| Palabras.InsertKeepsOrder | Texto.java:108-118 | inserting an absent word keeps the catalogue strictly ordered ignoring case |
| Palabras.InsertAddsOneEntry | Texto.java:108-118 | insertion grows the catalogue by one; the entries are the old ones, with their frequencies, plus (w, 1); w is then found |
| Palabras.InsertWellFormed | Texto.java:108-118 | inserting an absent word into a catalogue with room keeps the catalogue invariant |
| Palabras.AddOne | Texto.java:70-77 | one token: a known word keeps the size, a new word with room adds one entry, a new word on a full catalogue changes nothing |
| Palabras.AddAll | Texto.java:68-78 | addPalabras on a token sequence: AddOne token by token from the left; its properties are AddAllWellFormed, AddAllCountsEverything and AddAllCountsKnown |
| Palabras.AddOneWellFormed | Texto.java:70-77 | one token keeps the catalogue invariant |
| Palabras.AddAllWellFormed | Texto.java:68-78 | ingesting any token sequence keeps the catalogue ordered, free of duplicates and within capacity |
| Palabras.FreqOfConcat | Texto.java:72 | the recorded frequency of a word adds up over a split catalogue |
| Palabras.FreqOfIsLookup | Texto.java:71-72 | without duplicates, the recorded frequency of w is the frequency of the entry the lookup finds, or 0 |
| Palabras.FreqIncrement | Texto.java:71-72 | counting a known token raises the frequency of w by one exactly when the token is w ignoring case |
| Palabras.FreqInsert | Texto.java:75 | inserting a token raises the frequency of w by one exactly when the token is w ignoring case |
| Palabras.FreqAddOne | Texto.java:70-77 | a token raises the frequency of w by one exactly when it is w and is kept: known, or new with room |
| Palabras.KnownStaysKnown | Texto.java:70-77 | a word once in the catalogue stays in it whatever token comes next |
| Palabras.AddAllCountsEverything | Texto.java:68-78 | with room for every token, the frequency of each word grows by its number of occurrences |
| Palabras.AddAllCountsKnown | Texto.java:68-78 | even on a full catalogue, a word already known has all its further occurrences counted |
| Palabras.MozoExample | Texto.java:54-55 | "y un mozo de campo y plaza" counts "y" twice |
| Palabras.Survivors | Texto.java:245-255 | the entries with frequency at least f, in catalogue order; its properties are SurvivorsAreExactlyTheFrequent and SurvivorsOrdered |
| Palabras.CountBelow | Texto.java:245-255 | the number of entries with frequency below f, the result of borrarDeFrecuenciaMenor |
| Palabras.SurvivorsFromIsSuffix | Texto.java:247-253 | what the descending scan has settled right of k is the pruning of the suffix from k |
| Palabras.SurvivorsAreExactlyTheFrequent | Texto.java:245-255 | an entry survives pruning iff it was present with frequency at least f, frequency unchanged; survivors and removed entries add up to the old size |
| Palabras.SurvivorsOrdered | Texto.java:245-255 | pruning keeps a strictly ordered catalogue strictly ordered |
| Palabras.OrderedTail | Texto.java:245-255 | dropping the first entry keeps the order |
| Palabras.OrderedCons | Texto.java:245-255 | an entry below every entry of an ordered catalogue can go in front of it |
| Palabras.SurvivorsWellFormed | Texto.java:245-255 | pruning keeps the catalogue invariant |
| Informes.Histogram | Texto.java:226-237 | slot n counts the entries whose word has length n; its properties are HistogramSnoc and HistogramSum |
| Informes.SumIncrement | Texto.java:232 | bumping one slot of the histogram raises its sum by one |
| Informes.HistogramSnoc | Texto.java:230-233 | counting one more entry increments exactly the slot of its length |
| Informes.HistogramSum | Texto.java:226-237 | when every word is shorter than the histogram, its slots add up to the number of entries |
| Informes.ZeroSum | Texto.java:227 | a fresh all-zero histogram sums to 0 |
| Informes.HistogramExample | Texto.java:226-237 | {bird, cat, dog} gives 2 in slot 3, 1 in slot 4 and 0 elsewhere |
| Informes.AlternateCase | Texto.java:180-189 | position k lower-cased when 3 <= k < 6 and k is below the capacity, upper-cased otherwise; its properties are the AlternateCase lemmas below |
| Informes.AlternateCaseShape | Texto.java:180-189 | same length as the word; a letter is lower case exactly at positions 3 to 5 below the capacity and upper case elsewhere; other characters are unchanged |
| Informes.AlternateCaseSameWord | Texto.java:180-189 | the transform is the same word ignoring case |
| Informes.AlternateCaseIdempotent | Texto.java:174-195 | transforming a transformed word changes nothing |
| Informes.BananaExample | Texto.java:182 | "banana" becomes "BANana", and the capacity narrows the window: "BANanA" at 5, "BANaNA" at 4 |
| Informes.Matching | Texto.java:211-216 | the words of the entries that pass the test, in catalogue order; its properties are MatchingExactly and MatchingPrefix |
| Informes.RepeatedAsWritten | Texto.java:202-218 | palabrasConLetrasRepetidas as written: an array of all entries or none, by entry 0 alone, filled with the passing words; an overrun is None and an unfilled slot is None |
| Informes.MatchingExactly | Texto.java:211-216 | the reported words are exactly the words of the entries that pass the test, and there are no more of them than entries |
| Informes.MatchingSnoc | Texto.java:212-214 | scanning one more entry appends its word exactly when it passes |
| Informes.MatchingPrefix | Texto.java:211-216 | the words reported for a prefix begin the words reported for the whole catalogue |
| Informes.RepeatedAsWrittenShape | Texto.java:203-210 | as written, only entry 0 decides the array length: all entries when it passes, else none, and then the report succeeds only when no word passes |
| Informes.RepeatedAsWrittenOverruns | Texto.java:204-213 | on the ordered catalogue ["ab", "cc"] the code as written overruns its empty array, where the intent is ["cc"] |
| Informes.HelloWorldExample | Texto.java:202-218 | of "hello" and "world" only "hello" has a repeated letter |
| Textos.Texto.constructor | Texto.java:25-27 | a new catalogue is empty, valid and has capacity n |
| Textos.Texto.TextoCompleto | Texto.java:33-35 | true exactly when the catalogue has reached its capacity; then a new token leaves it unchanged |
| Textos.Texto.TotalPalabras | Texto.java:42-44 | the number of entries, between 0 and the capacity |
| Textos.Texto.GetPalabra | Texto.java:162-167 | absent (null) exactly when p is outside [0, total); otherwise entry p |
| Textos.Texto.EstaPalabra | Texto.java:86-97 | the linear scan returns the lookup IndexOf of the catalogue |
| Textos.Texto.InsertarPalabraEnOrden | Texto.java:108-118 | an absent word with room is inserted in order; a present word or a full catalogue leaves the catalogue unchanged; the invariant is kept |
| Textos.Texto.InsertarEnHueco | Texto.java:110-116 | shifting and storing (w, 1) turns the catalogue into its ordered insertion |
| Textos.Texto.DesplazarMayores | Texto.java:110-114 | the right shift returns a slot with every old entry from it on greater than w and the one before not greater; entries before it stay, entries from it on move one slot right |
| Textos.Texto.AddPalabras | Texto.java:68-78 | the catalogue after a line is the token-by-token ingestion AddAll of its tokens; the invariant is kept |
| Textos.Texto.BorrarDeFrecuenciaMenor | Texto.java:245-255 | the catalogue becomes its survivors; the result is the number removed, and total drops by it; the invariant is kept |
| Textos.Texto.Compactar | Texto.java:246-254 | the descending scan with left shifts leaves exactly the survivors, in order, and counts the removed entries |
| Textos.Texto.DesplazarIzquierda | Texto.java:249 | System.arraycopy moves the entries after slot i one slot left and leaves those before i |
| Textos.Texto.CapitalizarAlterna | Texto.java:174-195 | one string per entry, in catalogue order, each the alternating-case transform of its word |
| Textos.Texto.CalcularFrecuenciaLongitud | Texto.java:226-237 | fails exactly when some word has 15 or more characters; otherwise slot L counts the words of length L |
| Textos.Texto.PalabrasConLetrasRepetidasAsWritten | Texto.java:202-218 | the code as written: the result is RepeatedAsWritten, with an overrun as failure |
| Textos.Texto.PalabrasConLetrasRepetidas | Texto.java:202-218 | the corrected report: exactly the passing words, in catalogue order |

## Left out

- `leerDeFichero` (Texto.java:264-273): it reads a resource through `Scanner`, which is input/output.
- `print` (Texto.java:152-155): it writes to the console.
- `toString` (Texto.java:130-144): it depends on `Palabra.toString`, which is not part of this
  model, and on `String.format`. Its only structural rule is a newline before every entry whose
  index is a multiple of 5.
- The tokenizer `trim().split("[.\\,\\s]+")` (Texto.java:69): `AddPalabras` takes the token
  sequence as its parameter, and any token, including the empty string, is allowed.
- `Utilidades.tieneLetrasRepetidas` is not part of this model. Both report methods take the test
  as a parameter `p`, and `Informes.TieneLetrasRepetidas` gives the evident definition for the
  examples.
- Unicode case mapping: only ASCII letters change case. Full Unicode `toUpperCase` can change a
  string's length.
- Unicode code units: Java's `String` is a sequence of UTF-16 code units and Dafny's `string` a
  sequence of Unicode scalar values. A character outside the Basic Multilingual Plane has
  `length()` 2 in Java and 1 here. That moves its slot in the histogram (Texto.java:231-232) and
  the positions counted by `capitalizarAlterna` (Texto.java:180-187).
- Ascii.CompareIgnoreCase: Java compares UTF-16 code units, so the order differs on characters
  outside the Basic Multilingual Plane. For U+FFFD against U+1F600 Java answers positive and the
  model negative, which reverses the insertion order of such words.
- Locale: `toLowerCase()` and `toUpperCase()` at Texto.java:183 and 187 use the default locale.
  The model uses the locale-independent ASCII mapping; under a Turkish locale Java maps 'i' to
  a dotted capital I.
- `Palabra` is not part of this model. An entry is a value; `incrementar` writes back an updated
  value instead of changing a shared object.
- Textos.Texto.GetPalabra: returns the entry's value, not a reference that a caller could use to
  change the catalogue.
- Textos.Texto.constructor: the capacity is a `nat`. A negative `n`, which makes Java throw, is
  not modelled. Slots beyond `total` hold a placeholder entry where Java holds null; they are
  never read.
- Textos.Texto.CalcularFrecuenciaLongitud: the exception on a word of 15 or more characters is
  the result `None`.
- Textos.Texto.PalabrasConLetrasRepetidasAsWritten: the exception on the overrun is the result
  `None`, and a null slot is `None`.
- Frequencies and `total` are unbounded integers: the 32-bit overflow of `int` after 2^31
  occurrences is not modelled.
- Palabras.MozoExample: states the frequency of "y" only, not the six distinct entries of the
  same example.
- Single-threaded use only, as in the source.

## Findings

| source | as written | input that shows it | evidently intended | confidence | as-written member | corrected member |
|---|---|---|---|---|---|---|
| Texto.java:204-209 | the counting loop tests `palabras[i]` with `i` still 0, so it counts every entry or none, by entry 0 alone; when entry 0 passes, the array has `total` slots and those the fill does not reach stay null; when entry 0 fails and a later word passes, the fill writes past the end of the empty array | the ordered catalogue ["ab", "cc"] with the repeated-letter test: the count is 0 and the fill writes "cc" at index 0 of an empty array | test `palabras[j]` in the counting loop and return ["cc"] | not executed | Textos.Texto.PalabrasConLetrasRepetidasAsWritten, Informes.RepeatedAsWrittenOverruns | Textos.Texto.PalabrasConLetrasRepetidas, Informes.MatchingExactly |
