# Spelling corrector, modelled in Dafny

A model of a statistical spelling corrector in the style of Norvig's. The corrector
generates every word one or two single-character edits away from a misspelled word.
It keeps the ones that occur in a frequency table built from a corpus, and returns
the one with the largest probability. The model covers the whole engine in
`src/main.rs` except corpus reading:

- **Edits** (`edits.dfy`): `splits`, the four edit helpers `deletes`, `transposes`,
  `replaces` and `inserts` over the 26-letter alphabet, `edits1` and `edits2`.
  The helpers built from loops (`splits`, `replaces`, `inserts`) are methods
  proved equal to specification functions; `edits2`, also a loop, is a method
  proved to list exactly the words of the set `TwoEdits`. The helpers built from
  iterator chains (`deletes`, `transposes`, `edits1`) are functions. Every helper
  is connected to a position-based reference definition of the four edits
  (`Deletion`, `Transposition`, `Replacement`, `Insertion`) and, through it, to
  the edit-distance predicates `OneEdit` and `TwoEdit`.
- **Frequency** (`frequency.dfy`): the model is a `map<Word, int>`. `counter`
  counts tokens, the sum of the counts is the ghost `Total`, and `P` divides a
  count by the total.
- **Vocabulary** (`vocabulary.dfy`): `known` and the four-tier `candidates`.
- **Corrector** (`corrector.dfy`): `correction`, the finding below, and a
  corrected ranking.
- **Outcomes** (`outcomes.dfy`): the three panics of the corrector as values: the `expect` on a missing word (src/main.rs:48), division by a zero total (src/main.rs:49) and the `expect` on an empty candidate set (src/main.rs:107).

Words are sequences of characters, and every index is a character index. The source
slices strings by byte, so the two agree only on ASCII words. Corpus words are
runs of Unicode word characters, lower-cased.

Two details of the code shape the model:
- An absent word has no probability: the `expect` at src/main.rs:48 panics.
  The model keeps the panic (`Panicked(WordNotExistent)`) and proves that
  `correction` never reaches it.
- `edits2` builds a list with repetitions (src/main.rs:69-77), and so does the
  model.

## Model

| member | source | states |
|---|---|---|
| `Edits.Splits` | src/main.rs:110-118 | returns exactly \|w\|+1 splits; the i-th has a left part of length i, and left + right == w |
| `Edits.DeletesOfWord` | src/main.rs:120-130 | deletes of the splits of w gives \|w\| words, the i-th being w without character i, each of length \|w\|-1 |
| `Edits.TransposesOfWord` | src/main.rs:132-151 | transposes gives max(\|w\|-1, 0) words; the i-th has length \|w\|, swaps characters i and i+1, and keeps every other character |
| `Edits.Replaces` | src/main.rs:153-166 | the nested loop returns, letter by letter, one replacement of the first right character per split with a non-empty right part |
| `Edits.ReplacesOfWord` | src/main.rs:153-166 | on the splits of w: 26·\|w\| words; a word is produced iff it is w with one position replaced by a letter; each has length \|w\| and differs from w in at most one position |
| `Edits.Inserts` | src/main.rs:168-179 | the nested loop returns, letter by letter, one insertion per split, the empty right part included |
| `Edits.InsertsOfWord` | src/main.rs:168-179 | on the splits of w: 26·(\|w\|+1) words; a word is produced iff it is w with one letter inserted; each has length \|w\|+1 |
| `Edits.EditsUndo` | src/main.rs:120-179 | a check of the position-based reference edits the helpers are tied to: each reference edit has an inverse: deleting an inserted letter, restoring a replaced one and transposing twice give w back; lengths change by one or not at all |
| `Edits.ExpandSplits` | src/main.rs:120-179 | every helper, applied to the splits of w, yields one word per applicable position, in position order |
| `Edits.Edits1Members` | src/main.rs:52-67 | the union of the four helpers contains x iff x is one delete, transpose, replace or insert away from w |
| `Edits.Edits1Lengths` | src/main.rs:52-67 | every word of edits1(w) has length within one of \|w\| |
| `Edits.Edits1OfEmpty` | src/main.rs:52-67 | edits1 of the empty word is exactly the set of one-letter words |
| `Edits.Edits2` | src/main.rs:69-77 | the nested loop lists x iff x is in edits1(e1) for some e1 in edits1(w) |
| `Edits.TwoEditsMembers` | src/main.rs:69-77 | a word is listed by edits2(w) iff it is two edits away from w |
| `Edits.TwoEditsLengths` | src/main.rs:69-77 | every word listed by edits2(w) has length within two of \|w\| |
| `Frequency.Counter` | src/main.rs:38-44 | the keys are exactly the distinct tokens; each count is that token's number of occurrences, so every count is at least 1; the counts sum to the number of tokens |
| `Frequency.SumCounts` | src/main.rs:47 | the fold over the values returns the sum of all counts |
| `Frequency.TotalBounds` | src/main.rs:47 | in a model of positive counts, the total is at least any count, and larger when another key exists |
| `Frequency.P` | src/main.rs:46-50 | panics with the `expect` on an absent word, panics on a zero total, and otherwise returns count / total, rounded toward zero |
| `Frequency.ProbabilityValues` | src/main.rs:46-50 | in a model of positive counts, P of a key is 1 if it is the only key and 0 otherwise |
| `Vocabulary.Known` | src/main.rs:79-87 | the result is a subset of both the words and the keys, and contains every word that is a key |
| `Vocabulary.Candidates` | src/main.rs:89-101 | never empty; either every candidate is a key of the model, or the candidates are just the word itself |
| `Vocabulary.KnownWordIsOnlyCandidate` | src/main.rs:90-91 | a word of the model is its own only candidate |
| `Vocabulary.CandidatesAtOneEdit` | src/main.rs:92-93 | for an unknown word with a known word one edit away, the candidates are exactly the known words one edit away |
| `Vocabulary.CandidatesAtTwoEdits` | src/main.rs:94-95 | for an unknown word with no known word one edit away, the candidates are exactly the known words two edits away, if there are any |
| `Vocabulary.CandidatesFallback` | src/main.rs:96-100 | for an unknown word with no known word within two edits, the word is its own only candidate |
| `Corrector.MaxByProbability` | src/main.rs:105-107 | on an empty set, panics at the `expect`; otherwise returns an element whose P no other element exceeds, and panics exactly when there are two or more elements and one is absent from the model or the total is zero |
| `Corrector.Correction` | src/main.rs:103-108 | returns a candidate whose P no other candidate exceeds; panics only by dividing by a zero total while comparing two or more candidates, and never at either `expect`; never panics on a model of positive counts |
| `Corrector.KnownWordCorrectsToItself` | src/main.rs:103-108 | a word of the model corrects to itself, and to nothing else |
| `Corrector.CorrectionIdempotent` | src/main.rs:103-108 | a correction corrects to itself, and only to itself |
| `Corrector.CorrectionIgnoresFrequency` | src/main.rs:46-50 | in a model of positive counts, every candidate is an admissible correction, because the truncated P ranks all candidates equally |
| `Corrector.SpelingMayGiveSpewing` | src/main.rs:15 | with counts spelling 2 and spewing 1, the candidates of "speling" are both words, and "spewing" is an admissible correction |
| `Corrector.CorrectionByCount` | src/main.rs:103-108 | the corrected ranking returns a candidate whose count no other candidate exceeds, without dividing |
| `Corrector.CountOrderIsProbabilityOrder` | src/main.rs:46-50 | for a positive total, one count is at most another iff the real quotient count / total of the first is at most that of the second |
| `Corrector.CountCorrectionMaximisesProbability` | src/main.rs:103-108 | for a positive total, the corrected ranking's results are exactly the candidates of largest real-valued probability count / total |
| `Corrector.MostFrequentCandidateWins` | src/main.rs:103-108 | the corrected ranking returns the candidate that is strictly more frequent than all others, and nothing else |
| `Corrector.SpelingGivesSpelling` | src/main.rs:15 | with the corrected ranking, "speling" corrects to "spelling" and only to it |

## Findings

| source | as written | input that shows it | evidently intended | confidence | as-written member | corrected member |
|---|---|---|---|---|---|---|
| src/main.rs:49 | `*freq / num` divides two integers. In any model built by `counter` with two or more words the quotient is 0 for every word, so `max_by` picks whatever the set's iteration order puts last | model {"spelling": 2, "spewing": 1}, word "speling": both words are one edit away and both rank 0, so "spewing" may be returned | rank candidates by count, the order of the real quotient count / total, so that "speling" gives "spelling" as the assertion at src/main.rs:15 expects | not executed | `Corrector.SpelingMayGiveSpewing` | `Corrector.CorrectionByCount` |

## Left out

- `words` (src/main.rs:19-36) reads a file, tokenizes it with a regular expression and lower-cases it. That is I/O and an external library. `Counter` takes the token list instead.
- `main` (src/main.rs:11-17) needs the `big.txt` corpus. Its assertion (src/main.rs:15) and its `println!` (src/main.rs:16) are not modelled, except through the finding, which uses a two-word model.
- Iteration order of hash sets and maps is not modelled. Every loop over a set picks its next element with `:|`, so `Correction` returns some candidate of maximal P, not the one `max_by` returns among ties, which is the last in iteration order.
- Byte-indexed slicing (src/main.rs:115, 126, 160) panics on multi-byte characters. Words here are sequences of characters indexed by character, which matches the source on ASCII words only.
- Counts and their sum are unbounded integers. The i32 overflow of `*n += 1` or of the fold (it needs more than 2^31 tokens) is not modelled, and neither is the overflow of `i32::MIN / -1`.
- `Vocabulary.Known` takes a set where the source takes a slice. The source's first step turns the slice into a set (src/main.rs:80), so that set is all the result depends on.
- `Vocabulary.Candidates` is a function and cannot call the `Edits2` method. It uses the set `TwoEdits(w)`, which `Edits.Edits2` is proved to list.
- The source computes `known` twice per tier and builds `edits2` naively. Both only affect performance and are not modelled.
- Edits.Edits2: states which words the list contains, not how often each occurs or in which order, since the order comes from hash sets.
