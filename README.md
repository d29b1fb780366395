# DNA translation and motif finder — a verified model

This project models the sequence engine of `dna_translation_motif_finder.py`:

- **Normalization** (`normalize_dna`): whitespace is dropped and the text upper-cased. Anything left that is not one of A, C, G, T, N is refused with "DNA contains invalid bases: …". The message lists the offending characters once each, in code-point order, joined by ", ".
- **Reverse complement** (`reverse_complement`): A↔T, C↔G, N↔N. Every other character passes through unchanged, and the whole text is reversed.
- **Translation** (`translate_dna`): the 64-entry standard genetic code (`CODON_TABLE`) is read in reading frame 1, 2 or 3. A codon outside the table reads as `X`. A stop codon reads as `*`, or ends the protein when `stop_at_stop` is set.
- **Motif search** (`motif_to_regex`, `find_motifs`): an IUPAC motif is upper-cased, trimmed and expanded through `IUPAC_TO_REGEX` into regular-expression text. Every start offset where the motif matches is reported, overlapping matches included.

Modules, one per concern of the program:

| module | file | contents |
|---|---|---|
| `Outcomes` | `outcomes.dfy` | the `ValueError`s the program raises (`Error`), `Result`, and the message texts |
| `Text` | `text.dfy` | Python's whitespace (`str.isspace`), `upper`, `"".join(s.split())`, `strip` |
| `Normalizer` | `normalizer.dfy` | `normalize_dna`, with `sorted(set(...))` written out |
| `Complementer` | `complementer.dfy` | `reverse_complement` |
| `Codons` | `codons.dfy` | `CODON_TABLE` and `CODON_TABLE.get(codon, "X")` |
| `Translator` | `translator.dfy` | `translate_dna`: the loop as a method, proved against a specification function |
| `Motifs` | `motifs.dfy` | `IUPAC_TO_REGEX`, `motif_to_regex`, `find_motifs` |

### How the pieces are modelled

`translate_dna` updates a list in a loop. `Translator.TranslateFrame` is that loop, a method with a `while` loop whose postcondition ties the result to the pure `ReadingFrame` and `UpToStop`. `Translator.TranslateDna` is a method that checks the frame, normalizes the sequence and then calls `TranslateFrame`; its postcondition ties the result to the pure `Translation`. The lemmas about those functions state what the translation is.

Everything else in the core computes values, so it is written as functions with lemmas.

`find_motifs` hands the regex text to Python's `re` as a zero-width lookahead, `(?=(...))`. The model takes the text `MotifToRegex` produces and reads it back into one character class per symbol (`Classes`). `ClassesOfRegexText` proves that this read-back gives each IUPAC code's base set. `Scan` then tries every offset in turn, which is what the lookahead makes `finditer` do.

The order of the checks follows the code. `translate_dna` rejects a bad frame before it normalizes the sequence (lines 62-65), so a call with both a bad frame and bad bases reports the frame. `find_motifs` normalizes the sequence before it looks at the motif (lines 91-92), so a bad sequence is reported before a bad motif.

## Model

| member | source | states |
|---|---|---|
| Outcomes.JoinChars | dna_translation_motif_finder.py:52 | `", ".join` of n one-letter strings is empty for none; otherwise it is 3n-2 characters long, starts with the first and ends with the last |
| Outcomes.JoinCharsAt | dna_translation_motif_finder.py:52 | in the joined text, character i/3 sits at every position i divisible by 3, with "," and " " in the two slots after it |
| Outcomes.InvalidBasesMessage | dna_translation_motif_finder.py:52 | the invalid-bases message is the fixed 28-character prefix followed by offender k at offset 28+3k, and has length 28+3n-2 |
| Outcomes.JoinCharsInjective | dna_translation_motif_finder.py:52 | two lists of offenders that join to the same text are the same list |
| Outcomes.Message | dna_translation_motif_finder.py:52-87 | every message is non-empty; an unsupported-symbol message ends with the symbol, an invalid-bases message with the last offender |
| Outcomes.MessageInjective | dna_translation_motif_finder.py:52-87 | distinct failures raise distinct message texts, so the text determines the failure and its offenders |
| Text.SpaceIsNotAlphanumeric | dna_translation_motif_finder.py:49 | space, tab, line feed, carriage return, vertical tab and form feed are whitespace; no ASCII letter or digit is |
| Text.Upper | dna_translation_motif_finder.py:49 | no lower-case letter is left, a lower-case letter becomes the capital of the same letter, letters stay letters and non-letters stay non-letters, whitespace stays whitespace, and every character that is not a lower-case letter is kept |
| Text.UpperIdempotent | dna_translation_motif_finder.py:49 | upper-casing a character twice is upper-casing it once |
| Text.UpperAll | dna_translation_motif_finder.py:49 | `upper` keeps the length and leaves no lower-case letter |
| Text.UpperAllIdempotent | dna_translation_motif_finder.py:49 | upper-casing a text twice is upper-casing it once |
| Text.RemoveSpace | dna_translation_motif_finder.py:49 | `"".join(s.split())` is no longer than s and holds no whitespace |
| Text.RemoveSpaceKeeps | dna_translation_motif_finder.py:49 | `"".join(s.split())` holds exactly the non-whitespace characters of s, as a set; their order and number are stated by RemoveSpaceAppend |
| Text.RemoveSpaceAppend | dna_translation_motif_finder.py:49 | `"".join(s.split())` of a + b is that of a followed by that of b, and one character is dropped exactly when it is whitespace: the kept characters stay in their order and number |
| Text.UpperAllAppend | dna_translation_motif_finder.py:49 | `upper` of a + b is `upper` of a followed by `upper` of b |
| Text.RemoveSpaceClean | dna_translation_motif_finder.py:49 | text without whitespace is unchanged by it |
| Text.RemoveSpaceBlank | dna_translation_motif_finder.py:49 | it yields the empty text exactly when s is all whitespace |
| Text.StripLeft | dna_translation_motif_finder.py:80 | `lstrip` gives a suffix of s, everything removed is whitespace, and the result does not start with whitespace |
| Text.StripRight | dna_translation_motif_finder.py:80 | `rstrip` gives a prefix of s, everything removed is whitespace, and the result does not end with whitespace |
| Text.StripSlice | dna_translation_motif_finder.py:80 | `strip` gives a slice of s, and everything before and after that slice is whitespace |
| Text.Strip | dna_translation_motif_finder.py:80 | `strip` is no longer than s, and a non-empty result neither starts nor ends with whitespace |
| Text.StripRightOfSuffix | dna_translation_motif_finder.py:80 | `rstrip` of the suffix of s from i is the slice of s from i, and everything after it is whitespace |
| Text.StripBlank | dna_translation_motif_finder.py:80-81 | the stripped text is empty exactly when s is all whitespace |
| Text.StripClean | dna_translation_motif_finder.py:80 | text with no whitespace at either end is unchanged by `strip` |
| Normalizer.Cleaned | dna_translation_motif_finder.py:49 | the text that is checked is no longer than the input and holds neither whitespace nor lower-case letters |
| Normalizer.NonBases | dna_translation_motif_finder.py:50 | the characters filtered out are no more than the text has, and none of them is A, C, G, T or N |
| Normalizer.NonBasesMembers | dna_translation_motif_finder.py:50 | the characters filtered out are exactly those of the text that are not A, C, G, T or N |
| Normalizer.NonBasesOfDna | dna_translation_motif_finder.py:50-51 | a text of bases has no invalid characters |
| Normalizer.Insert | dna_translation_motif_finder.py:50 | inserting c into the sorted list holds exactly the old characters and c |
| Normalizer.InsertSorted | dna_translation_motif_finder.py:50 | insertion keeps a list strictly increasing: ascending and without repeats |
| Normalizer.SortedDistinct | dna_translation_motif_finder.py:50 | `sorted(set(cs))` holds exactly the characters of cs |
| Normalizer.SortedDistinctSorted | dna_translation_motif_finder.py:50 | `sorted(set(cs))` is strictly increasing |
| Normalizer.Normalize | dna_translation_motif_finder.py:48-53 | a success is a text of A, C, G, T, N; a failure is `InvalidBases` with a non-empty, strictly increasing list of offenders |
| Normalizer.CleanedMembers | dna_translation_motif_finder.py:49 | the cleaned text holds exactly the upper-cased non-whitespace characters of the input, as a set; their order and number are stated by CleanedAppend |
| Normalizer.CleanedAppend | dna_translation_motif_finder.py:49 | the cleaned a + b is the cleaned a followed by the cleaned b, and one character becomes its upper-case form or, if whitespace, nothing: the input's non-whitespace characters come out upper-cased, in their order |
| Normalizer.NormalizeFailsIff | dna_translation_motif_finder.py:50-52 | normalization fails exactly when some non-whitespace input character upper-cases to something other than A, C, G, T, N |
| Normalizer.UpperIsBase | dna_translation_motif_finder.py:49-50 | a character upper-cases to a base exactly when it is one of A, C, G, T, N in either case |
| Normalizer.NormalizeAlphabet | dna_translation_motif_finder.py:48-53 | `normalize_dna` succeeds exactly when every non-whitespace character is one of A, C, G, T, N in upper or lower case |
| Normalizer.NormalizeOffenders | dna_translation_motif_finder.py:50-52 | the error lists, in increasing order, exactly the non-bases that some input character upper-cases to |
| Normalizer.NormalizeSucceeds | dna_translation_motif_finder.py:49-53 | on success the result is the upper-cased input with whitespace removed, and every character is a base |
| Normalizer.NormalizeFixesDna | dna_translation_motif_finder.py:48-53 | a text already made of A, C, G, T, N normalizes to itself |
| Normalizer.NormalizeIdempotent | dna_translation_motif_finder.py:48-53 | normalizing a normalized sequence changes nothing |
| Normalizer.NormalizeBlank | dna_translation_motif_finder.py:49-53 | the result is the empty sequence exactly when the input is all whitespace |
| Normalizer.NormalizeSpacedExample | dna_translation_motif_finder.py:49 | "AC GT" normalizes to "ACGT" |
| Normalizer.NormalizeLowerExample | dna_translation_motif_finder.py:49 | "a\tc\n" normalizes to "AC" |
| Normalizer.NormalizeRejectExample | dna_translation_motif_finder.py:50-52 | "ACGTX" is refused with "DNA contains invalid bases: X" |
| Normalizer.NormalizeRejectSortedExample | dna_translation_motif_finder.py:50-52 | "zxz" is refused with "DNA contains invalid bases: X, Z": deduplicated and sorted |
| Complementer.Complement | dna_translation_motif_finder.py:57 | a character is a base exactly when its complement is; N and non-bases map to themselves |
| Complementer.Reverse | dna_translation_motif_finder.py:58 | `[::-1]` keeps the length and puts s[\|s\|-1-i] at position i |
| Complementer.ReverseComplement | dna_translation_motif_finder.py:56-58 | position i holds the complement of s[\|s\|-1-i] |
| Complementer.ComplementInvolution | dna_translation_motif_finder.py:57 | complementing twice gives the character back |
| Complementer.ReverseComplementInvolution | dna_translation_motif_finder.py:56-58 | the reverse complement of the reverse complement is the original text |
| Complementer.ReverseComplementKeepsDna | dna_translation_motif_finder.py:56-58 | a sequence of bases stays one |
| Complementer.ReverseComplementPassesThrough | dna_translation_motif_finder.py:57 | a character outside the translation table is kept, at the mirrored position |
| Complementer.ReverseComplementExamples | dna_translation_motif_finder.py:56-58 | "AACGTN" gives "NACGTT"; lower-case "acgt" is only reversed, to "tgca" |
| Codons.CodonTableKeysConcrete | dna_translation_motif_finder.py:10-27 | every key of the codon table is three of A, C, G, T |
| Codons.CodonTableComplete | dna_translation_motif_finder.py:10-27 | every such triple is a key |
| Codons.CodonTableKeys | dna_translation_motif_finder.py:10-27 | the keys are exactly the 64 concrete codons |
| Codons.CodonTableValues | dna_translation_motif_finder.py:10-27 | every value is one of the 20 amino-acid letters or the stop `*` |
| Codons.Lookup | dna_translation_motif_finder.py:71 | every lookup gives X, the stop `*` or one of the 20 amino-acid letters |
| Codons.LookupIsTableGet | dna_translation_motif_finder.py:71 | lookup is `CODON_TABLE.get(codon, "X")` |
| Codons.LookupMeaning | dna_translation_motif_finder.py:71 | lookup gives X exactly off the table, otherwise an amino acid or `*`; any codon containing N gives X |
| Codons.StopCodons | dna_translation_motif_finder.py:19-23 | lookup gives `*` exactly for TAA, TAG and TGA |
| Codons.LookupExamples | dna_translation_motif_finder.py:13-26 | ATG→M, GGG→G, AAA→K, TAG→*, NNN→X |
| Translator.ReadingFrame | dna_translation_motif_finder.py:69-71 | the frame from offset `start` has one amino acid per complete codon left from there |
| Translator.ReadingFrameAt | dna_translation_motif_finder.py:69-71 | amino acid j is the lookup of the codon at start+3j, which lies wholly inside the sequence |
| Translator.ReadingFrameFull | dna_translation_motif_finder.py:66-71 | the frame from `start` has floor((L-start)/3) letters, fewer than 3 bases are left over, and every letter is the lookup of its codon |
| Translator.UpToStop | dna_translation_motif_finder.py:72-73 | stopping gives a prefix without `*`, cut exactly at the first `*` if there is one |
| Translator.UpToStopAfter | dna_translation_motif_finder.py:72-74 | text with no stop is carried over whole before the cut-off rest |
| Translator.Translation | dna_translation_motif_finder.py:61-76 | translation succeeds exactly for a frame in {1, 2, 3} and a sequence that normalizes; the protein has at most one letter per three bases, and none is `*` when `stop_at_stop` is set |
| Translator.FrameStep | dna_translation_motif_finder.py:69-74 | one loop step: the frame at i is the codon at i followed by the frame at i+3 |
| Translator.StopPrefix | dna_translation_motif_finder.py:72-73 | breaking at a stop, or at the end, leaves exactly what was accumulated |
| Translator.TranslateFrame | dna_translation_motif_finder.py:66-76 | the loop returns the whole reading frame, or its prefix up to the first stop when `stop_at_stop` is set |
| Translator.TranslateDna | dna_translation_motif_finder.py:61-76 | the method computes `Translation` for every input, error cases included |
| Translator.TranslationFrameFirst | dna_translation_motif_finder.py:62-63 | a frame outside {1, 2, 3} fails with "Frame must be 1, 2, or 3.", whatever the sequence |
| Translator.TranslationInvalidBases | dna_translation_motif_finder.py:65 | with a valid frame, a sequence that fails normalization fails translation with the same error |
| Translator.TranslationFull | dna_translation_motif_finder.py:66-76 | the protein has floor((L-(f-1))/3) letters, fewer than 3 bases are left over, and letter j is the lookup of the codon at f-1+3j |
| Translator.TranslationEarlyStop | dna_translation_motif_finder.py:72-74 | with `stop_at_stop` the protein is the prefix of the full one before its first `*`, and holds no `*` |
| Translator.TranslationErrorsAgree | dna_translation_motif_finder.py:61-65 | `stop_at_stop` does not change whether, or with which error, translation fails |
| Translator.TranslationOfDna | dna_translation_motif_finder.py:61-76 | on a normalized sequence and a valid frame, translation succeeds with the reading frame, cut at the stop if asked |
| Translator.TranslationStopExample | dna_translation_motif_finder.py:61-76 | "ATGAAATAG", frame 1, gives "MK*" |
| Translator.TranslationEarlyStopExample | dna_translation_motif_finder.py:72-73 | with `stop_at_stop` it gives "MK" |
| Translator.TranslationUnknownExample | dna_translation_motif_finder.py:71 | "NNNATG" gives "XM" |
| Translator.TranslationFrameTwoExample | dna_translation_motif_finder.py:66-69 | frame 2 of "ATGCA" reads only TGC and gives "C"; the leftover A is dropped |
| Motifs.IupacToRegexEntries | dna_translation_motif_finder.py:29-45 | unfolds the table's definition: its keys are exactly the 15 IUPAC codes and each entry is that code's `Expansion`; agreement with the source's entries is stated by `Expansion` and `ExpansionMeansBaseSet` |
| Motifs.UpperIsCode | dna_translation_motif_finder.py:29-45 | a character upper-cases to a key of the table exactly when it is one of the fifteen codes in either case |
| Motifs.Expansion | dna_translation_motif_finder.py:29-45 | each entry has 1 to 6 characters, and only A, C, G and T have a one-letter entry |
| Motifs.BaseSet | dna_translation_motif_finder.py:29-45 | each code stands for a non-empty set of A, C, G, T; A, C, G and T stand for themselves and N for all four |
| Motifs.ClassOfLetter | dna_translation_motif_finder.py:94 | a one-letter piece of a pattern matches that letter only |
| Motifs.ClassOfBracket | dna_translation_motif_finder.py:94 | a bracket class matches exactly the letters between the brackets |
| Motifs.ExpansionMeansBaseSet | dna_translation_motif_finder.py:29-45 | each table entry is a well-formed single class that matches exactly the code's IUPAC base set |
| Motifs.FirstUnsupported | dna_translation_motif_finder.py:85-86 | the first symbol with no table entry: every symbol before it has one |
| Motifs.PrepareMotif | dna_translation_motif_finder.py:80-87 | the empty-motif error comes exactly when the upper-cased, stripped motif is empty; success keeps that motif, all of whose symbols are codes; any other error names a symbol of it that is no code |
| Motifs.RegexText | dna_translation_motif_finder.py:85 | the joined entries have between 1 and 6 characters per symbol |
| Motifs.MotifToRegex | dna_translation_motif_finder.py:79-87 | `motif_to_regex` fails only as an empty motif or an unsupported symbol, and on success the text has at least one character per symbol of the non-empty trimmed motif |
| Motifs.Classes | dna_translation_motif_finder.py:94 | reading a regex back gives no more classes than it has characters |
| Motifs.ClassesOfPiece | dna_translation_motif_finder.py:85 | reading back a well-formed piece followed by more text gives its class, then the rest |
| Motifs.ClassesOfRegexText | dna_translation_motif_finder.py:85-94 | the concatenated regex text reads back as exactly one base set per motif symbol |
| Motifs.ScanFinds | dna_translation_motif_finder.py:94-95 | an offset is listed exactly when the pattern fits there and matches, overlapping matches included |
| Motifs.Scan | dna_translation_motif_finder.py:94-95 | every offset the scan from p lists is at least p, and the pattern fits inside the sequence there |
| Motifs.ScanAscending | dna_translation_motif_finder.py:95 | the offsets are listed in strictly increasing order |
| Motifs.MatchesPattern | dna_translation_motif_finder.py:94 | matching at p means each base s[p+k] lies in the base set of symbol k |
| Motifs.ScanBaseSets | dna_translation_motif_finder.py:94-95 | the scan for a motif's pattern lists p exactly when the motif fits at p and each base s[p+k] is in the base set of symbol k |
| Motifs.ScanSkipsN | dna_translation_motif_finder.py:94-95 | no window over an N is listed by the scan, whatever the motif |
| Motifs.FindMotifs | dna_translation_motif_finder.py:90-95 | `find_motifs` succeeds exactly when the sequence normalizes and the motif expands, and every position it reports lies within the normalized sequence |
| Motifs.UpperKeepsSpace | dna_translation_motif_finder.py:80 | upper-casing keeps whitespace exactly where it was |
| Motifs.MotifEmpty | dna_translation_motif_finder.py:80-82 | the motif fails with "Motif cannot be empty." exactly when it is all whitespace |
| Motifs.MotifUnsupported | dna_translation_motif_finder.py:84-87 | a non-blank motif fails exactly when a trimmed, upper-cased symbol has no table entry, and the error names the first such symbol |
| Motifs.MotifExpansion | dna_translation_motif_finder.py:79-85 | on success every symbol is a code, the text is the concatenation of their entries, and it reads back as their base sets |
| Motifs.FindMotifsSequenceFirst | dna_translation_motif_finder.py:91 | a bad sequence fails with its normalization error, whatever the motif |
| Motifs.FindMotifsMotifErrors | dna_translation_motif_finder.py:92 | with a good sequence, a bad motif fails with the motif's error |
| Motifs.FindMotifsScans | dna_translation_motif_finder.py:90-95 | on success the result is the scan of the normalized sequence with the motif's base sets |
| Motifs.FindMotifsAscending | dna_translation_motif_finder.py:95 | the positions are strictly increasing |
| Motifs.FindMotifsPositions | dna_translation_motif_finder.py:90-95 | p is reported exactly when the motif fits at p and each base s[p+k] is in the base set of symbol k |
| Motifs.FindMotifsSkipsN | dna_translation_motif_finder.py:90-95 | no window covering an N of the sequence is ever reported, even for motif N |
| Motifs.MotifOfCodes | dna_translation_motif_finder.py:79-85 | a motif written in upper-case codes expands as it stands |
| Motifs.MotifAlphabet | dna_translation_motif_finder.py:79-87 | a motif without whitespace at its ends expands exactly when every symbol is one of the fifteen codes in upper or lower case |
| Motifs.FindMotifsOfCodes | dna_translation_motif_finder.py:90-95 | on a normalized sequence and such a motif, the result is the scan for the motif's base sets |
| Motifs.MotifCaseInsensitive | dna_translation_motif_finder.py:80 | motifs with the same upper-case form expand alike |
| Motifs.MotifToRegexExample | dna_translation_motif_finder.py:79-85 | "RY" expands to "[AG][CT]" |
| Motifs.MotifLowerExample | dna_translation_motif_finder.py:80 | "ry" expands to "[AG][CT]" too |
| Motifs.MotifEmptyExample | dna_translation_motif_finder.py:81-82 | "" fails as an empty motif |
| Motifs.MotifBlankExample | dna_translation_motif_finder.py:80-82 | " \t" fails as an empty motif |
| Motifs.MotifUnknownExample | dna_translation_motif_finder.py:86-87 | "Z" fails with "Unsupported motif symbol: Z" |
| Motifs.MotifInnerSpaceExample | dna_translation_motif_finder.py:80-87 | "A T" fails naming the interior space, which `strip` keeps |
| Motifs.FindMotifsOverlapExample | dna_translation_motif_finder.py:94-95 | "AA" in "AAAA" is found at 0, 1 and 2 |
| Motifs.FindMotifsExample | dna_translation_motif_finder.py:90-95 | "ATG" in "ATGCATGC" is found at 0 and 4 |

## Left out

- `build_parser`, `main` and `app.py`: argument parsing, the interactive prompts, printing and the HTTP route only carry inputs to the core and show its results.
- Text.Upper: only ASCII letters are upper-cased. Python's `str.upper` also maps other letters, and can change the length of the text. In a sequence this only changes which characters the error message names: no non-ASCII character upper-cases to A, C, G, T and N alone, so such a sequence is refused either way. The same holds for a refused non-ASCII motif symbol: for "é" Python's message names "É", the model's names "é". In a motif some non-ASCII letters do upper-case to IUPAC codes: "ſ" becomes "S", "ß" becomes "SS" (expanded to "[GC][GC]"), and "ﬅ" and "ﬆ" become "ST". Python accepts those motifs; the model refuses them.
- Motifs.FindMotifs: Python's `re` engine is not modelled. The regex text is read back into character classes, and the lookahead `finditer` is modelled as a scan that tries every offset. This holds because the text only ever consists of letters and bracket classes.
- Motifs.MotifUnsupported: `exc.args[0]` is modelled as the offending character itself, which is what the `KeyError` of a dictionary lookup carries.
- Python's `ValueError` exceptions are modelled as an `Err` value of the `Result` type, and their messages as `Outcomes.Message`.
- Translator.TranslateDna: the frame is any integer. Python's `frame not in {1, 2, 3}` would also accept `True`, because `True == 1`. That case is not modelled.
