# UniProt FASTA pairing, modelled in Dafny

This project models the FASTA handling at the heart of the co-evolution
pipeline in `MI_coevolution_v2.py`. The pipeline pairs the UniProt BLAST hits
of two proteins by taxon before they are aligned.

- `parse_fasta` reads a FASTA file line by line:
  - it strips each line and skips blank ones;
  - it folds the remaining lines into (header, sequence) records;
  - it splits each UniProt header `>db|Accession|EntryName Protein name OS=… OX=… GN=… PE=… SV=…` into a ten-column label;
  - it returns the labels and a map from accession to sequence.
- `write_aligned_fasta` parses two files and selects each file's labels:
  - it sorts by database and keeps the first label per taxon (`OX`);
  - it drops labels with an empty gene name (`GN`);
  - it keeps the taxa present on both sides and sorts by taxon;
  - it writes each side as a FASTA file with the taxon as the header, under a name built from the two input basenames.

Modules, one file each:

| module | file | models |
|---|---|---|
| `Wrappers` | `wrappers.dfy` | `Option`, `Result` |
| `Strings` | `strings.dfy` | the Python string operations used: `strip`, `split`, `join`, slicing, ASCII `upper`, the ordering of `str` |
| `FastaLines` | `fasta_lines.dfy` | the line loop (`FoldLines`), proved against a reference fold `Fold` of the cleaned lines |
| `UniProtHeader` | `uniprot_header.dfy` | one header: `|`-fields, the scan for the five tags, the tag table, the label |
| `FastaParse` | `fasta_parse.dfy` | `parse_fasta` as a whole: the header loop, the accession map, the error for a short header |
| `Selection` | `selection.dfy` | the label frame (`LabelFrame`) with in-place `sort_values`/`drop_duplicates`, and the pure filter/intersect/sort steps |
| `AlignedFasta` | `aligned_fasta.dfy` | the record writer, the output names, `write_aligned_fasta` end to end |

Modelling choices:

- A file read is modelled as its list of lines. A written file is modelled as its text.
- A header with fewer than three `|`-fields makes `parse_fasta` fail when it indexes the third field. Here that is the error `MalformedHeader(i)` for the first such header.
- `re.split`/`re.findall` on the alternation of the five tag texts is modelled as a leftmost scan. All five alternatives are four characters long and none is a prefix of another, so the two agree.
- The pandas frame of labels is a class whose `rows` field the in-place methods replace. The steps that return new frames are functions.

## Model

| member | source | states |
|---|---|---|
| Strings.Strip | MI_coevolution_v2.py:42 | the stripped line has no whitespace at either end and is no longer than the line |
| Strings.StripRemovesSpaces | MI_coevolution_v2.py:42 | what `strip()` removes is whitespace only: the line is the stripped text with whitespace on either side |
| Strings.StripAround | MI_coevolution_v2.py:42 | whitespace around a text without outer whitespace is exactly what `strip()` removes |
| Strings.Take | MI_coevolution_v2.py:112 | `s[:n]` is a prefix of `s` of length min(n, \|s\|) |
| Strings.Drop | MI_coevolution_v2.py:64 | `s[n:]` is what follows the first n characters |
| Strings.Split | MI_coevolution_v2.py:64 | `split(sep)` always gives at least one part |
| Strings.Join | MI_coevolution_v2.py:80 | defines `" ".join`: the parts with the separator between them; `SplitParts` shows it undoes `Split` |
| Strings.SplitParts | MI_coevolution_v2.py:64 | no part of a split holds the separator, and joining the parts with it gives back the string |
| Strings.SplitAppend | MI_coevolution_v2.py:64 | splitting at a separator splits the two sides independently |
| Strings.SplitWithout | MI_coevolution_v2.py:64 | a string without the separator splits into itself |
| Strings.ConcatAppend | MI_coevolution_v2.py:55 | concatenating two lists of lines is concatenating their texts |
| Strings.Upper | MI_coevolution_v2.py:79 | same length, lower-case ASCII letters become capitals, every other character is kept |
| Strings.Less | MI_coevolution_v2.py:97 | defines the `str` order `sort_values` uses: lexicographic by code point, a proper prefix first; no string sorts before itself |
| Strings.LessIrreflexive | MI_coevolution_v2.py:97 | no string sorts before itself |
| Strings.LessAsymmetric | MI_coevolution_v2.py:97 | two strings never sort before each other |
| Strings.LessTransitive | MI_coevolution_v2.py:97 | the string order is transitive |
| Strings.LessTotal | MI_coevolution_v2.py:97 | any two strings are equal or one sorts before the other |
| Strings.LessEqTransitive | MI_coevolution_v2.py:97 | the non-strict string order is transitive |
| Strings.SwissProtFirst | MI_coevolution_v2.py:96-97 | "sp" sorts before "tr", so Swiss-Prot rows come first |
| FastaLines.Cleaned | MI_coevolution_v2.py:42-44 | there are no more lines acted on than input lines |
| FastaLines.Fold | MI_coevolution_v2.py:45-56 | defines the reference reading of the cleaned lines: each header takes the non-header text up to the next header; `FoldLines` is proved equal to it |
| FastaLines.CleanedLines | MI_coevolution_v2.py:42-44 | every line acted on is stripped and non-empty |
| FastaLines.CleanedCons | MI_coevolution_v2.py:41-44 | the first line contributes its stripped form unless that is empty, then the rest follows |
| FastaLines.CleanedSnoc | MI_coevolution_v2.py:41-44 | reading one more line adds its stripped form unless that is empty |
| FastaLines.CleanedAppend | MI_coevolution_v2.py:41-44 | lines are cleaned one at a time, independently of each other |
| FastaLines.Sequences | MI_coevolution_v2.py:52-56 | one sequence per record, or exactly one sequence when there is no header |
| FastaLines.FoldHeaders | MI_coevolution_v2.py:45-47 | there is one record per header line, in header order |
| FastaLines.FoldText | MI_coevolution_v2.py:54-55 | no sequence text is lost, duplicated or reordered: the preamble followed by the record bodies is all the non-header text |
| FastaLines.FoldNoHeaders | MI_coevolution_v2.py:54-56 | a file without headers has no records; all its text is the preamble |
| FastaLines.FoldBlock | MI_coevolution_v2.py:45-56 | a record's sequence is the concatenation, in order, of the lines after its header up to the next header or the end |
| FastaLines.FoldPreamble | MI_coevolution_v2.py:48-55 | text lines before a header form the preamble and leave the records unchanged |
| FastaLines.PreambleDiscarded | MI_coevolution_v2.py:48-50 | text before the first header changes neither the headers nor the sequences |
| FastaLines.Step | MI_coevolution_v2.py:45-55 | a header line adds one record; a text line keeps the number of records |
| FastaLines.FoldSnoc | MI_coevolution_v2.py:45-55 | the reference fold read left to right: one more cleaned line opens a record, extends the last body, or extends the preamble |
| FastaLines.HeaderStep | MI_coevolution_v2.py:45-53 | on a header the loop's labels gain the line, the sequence being read is finished unless it is the first header, and a new empty one starts, keeping the loop state in step with the fold |
| FastaLines.TextStep | MI_coevolution_v2.py:54-55 | on a text line the sequence being read gains the line, keeping the loop state in step with the fold |
| FastaLines.LoopDone | MI_coevolution_v2.py:56 | after the loop, appending the sequence being read gives exactly the fold's sequences |
| FastaLines.FoldLines | MI_coevolution_v2.py:36-56 | the line loop returns exactly the header lines and the sequences of the reference fold of the cleaned lines |
| UniProtHeader.TagOf | MI_coevolution_v2.py:65-67 | recognises exactly the five four-character tag texts, each ending in '=' |
| UniProtHeader.ScanTags | MI_coevolution_v2.py:65-66 | the split gives one more piece than tags found |
| UniProtHeader.ScanRebuild | MI_coevolution_v2.py:65-66 | the pieces with the tags between them give back the field |
| UniProtHeader.ScanPrefixed | MI_coevolution_v2.py:65-66 | a tag-free piece followed by a tag is split off as the first piece, with that tag first |
| UniProtHeader.ScanPlain | MI_coevolution_v2.py:65-66 | a tag-free field is one piece and no tag |
| UniProtHeader.ScanOfRebuild | MI_coevolution_v2.py:65-66 | splitting undoes rebuilding when no piece holds a tag |
| UniProtHeader.ScanTagFree | MI_coevolution_v2.py:65-66 | no piece of the scan holds a tag text: every tag in the field is found, as `re.split` splits at every match |
| UniProtHeader.TableValue | MI_coevolution_v2.py:69-73 | an absent tag's table value is '' |
| UniProtHeader.TableValueLast | MI_coevolution_v2.py:72-73 | a tag's table value is the piece after its last occurrence |
| UniProtHeader.InOrderTable | MI_coevolution_v2.py:68-76 | with the tags in order, the table holds the piece after each tag, so the shortcut agrees with the table |
| UniProtHeader.FieldValues | MI_coevolution_v2.py:68-76 | five values, each the table value of OS, OX, GN, PE, SV in turn, on either branch |
| UniProtHeader.HeaderFields | MI_coevolution_v2.py:64 | a header always has at least one `\|`-field |
| UniProtHeader.ParseHeader | MI_coevolution_v2.py:64-80 | a header parses exactly when it has at least three `\|`-fields |
| UniProtHeader.HeaderColumns | MI_coevolution_v2.py:64-80 | db and accession are the first two fields; the entry name holds no space or '\|' and, with the protein name, is the pre-tag text split at its first space (protein name '' without one); OS..SV are the table values; OX_GN is the upper-cased OX + "_" + GN |
| UniProtHeader.InOrderFields | MI_coevolution_v2.py:65-76 | with the tags in order, the five columns are the texts between consecutive tags, SV running to the end |
| UniProtHeader.FormatFields | MI_coevolution_v2.py:64 | a written header's `\|`-fields are db, accession and the rest of the line |
| UniProtHeader.FormatNames | MI_coevolution_v2.py:77-80 | an entry name without a space, a space and a protein name split back into that entry name and protein name |
| UniProtHeader.FormatThenParse | MI_coevolution_v2.py:64-80 | a label written as a UniProt header parses back to the same label |
| FastaParse.FirstMalformed | MI_coevolution_v2.py:62-65 | none exactly when every header parses; otherwise the index of a failing header with every earlier header parsing |
| FastaParse.Parse | MI_coevolution_v2.py:34-84 | defines `parse_fasta` on a file's lines: the error names a header that exists; a success has one label per header record |
| FastaParse.SequenceMap | MI_coevolution_v2.py:82 | the map's keys are exactly the labels' accessions |
| FastaParse.SequenceMapLast | MI_coevolution_v2.py:82 | an accession's sequence comes from its last record |
| FastaParse.ParseHeaders | MI_coevolution_v2.py:62-84 | fails exactly on a malformed header; otherwise one label per header, each label's accession in the map |
| FastaParse.ParseLabels | MI_coevolution_v2.py:62-81 | the labels are the file's header lines parsed, in order |
| FastaParse.ParseSequences | MI_coevolution_v2.py:82-84 | the map sends each header's accession to the sequence under that header, the last duplicate winning, with no other keys |
| FastaParse.ParseLabelLines | MI_coevolution_v2.py:62-84 | the header loop returns exactly the per-header result, including the failing index |
| FastaParse.ParseFasta | MI_coevolution_v2.py:34-84 | `parse_fasta` returns exactly the reference parse of the lines |
| Selection.SortedPairs | MI_coevolution_v2.py:97 | in a sorted frame every earlier row's key is at most every later row's |
| Selection.StrictPairs | MI_coevolution_v2.py:108 | in a strictly sorted frame every earlier key is below every later key |
| Selection.StrictKeysAscending | MI_coevolution_v2.py:108 | a strictly sorted frame's column is strictly ascending |
| Selection.KeysSet | MI_coevolution_v2.py:104-106 | the column as a list has the same elements as the column's set |
| Selection.AscendingUnique | MI_coevolution_v2.py:106-110 | two strictly ascending lists of the same elements are equal |
| Selection.Insert | MI_coevolution_v2.py:97 | insertion adds the row exactly once; the first row is the new row or the old first row |
| Selection.InsertSorted | MI_coevolution_v2.py:97 | inserting into a sorted frame keeps it sorted |
| Selection.InsertStrict | MI_coevolution_v2.py:108 | inserting a new key into a strictly sorted frame keeps it strictly sorted |
| Selection.SortBy | MI_coevolution_v2.py:97 | the sorted frame is in key order and is a permutation of the rows |
| Selection.SortDistinct | MI_coevolution_v2.py:108 | with distinct keys the sorted frame is strictly ascending |
| Selection.KeepFirstBy | MI_coevolution_v2.py:98 | dedup never adds rows |
| Selection.KeepFirstKeys | MI_coevolution_v2.py:98 | after dedup no two rows share a key, every key is still present, and the rows are drawn from the frame |
| Selection.DedupStep | MI_coevolution_v2.py:98 | one more row is skipped when its key has been seen and kept otherwise, and its key is then seen |
| Selection.KeptIsFirst | MI_coevolution_v2.py:98 | each surviving row is the first row with its key |
| Selection.DedupMinimalDb | MI_coevolution_v2.py:96-100 | sort by db then dedup by OX leaves one row per taxon with a least db for that taxon, whatever the tie order |
| Selection.Where | MI_coevolution_v2.py:102 | a row is kept exactly when it is in the frame and satisfies the mask; rows are drawn from the frame |
| Selection.WhereDistinct | MI_coevolution_v2.py:102-109 | masking keeps keys distinct |
| Selection.KeepNamed | MI_coevolution_v2.py:102 | the empty-GN filter keeps taxa distinct |
| Selection.KeepTaxa | MI_coevolution_v2.py:107 | the shared-taxa filter keeps taxa distinct |
| Selection.SharedTaxa | MI_coevolution_v2.py:106 | defines the taxa both sides keep: a subset of each side's taxa |
| Selection.KeepTaxaKeys | MI_coevolution_v2.py:106-107 | restricting to shared taxa leaves exactly those taxa |
| Selection.SortKeys | MI_coevolution_v2.py:108 | sorting keeps the set of keys |
| Selection.Sides | MI_coevolution_v2.py:102-110 | each side's written rows are drawn from its deduplicated frame |
| Selection.SideMembers | MI_coevolution_v2.py:102-110 | a row is written exactly when it survived dedup, has a gene name, and its taxon survives on the other side |
| Selection.SideOrdered | MI_coevolution_v2.py:102-110 | a side's taxa are strictly ascending and are exactly the shared taxa |
| Selection.SidesAgree | MI_coevolution_v2.py:104-110 | both sides list the same strictly ascending taxa: the intersection of the two sides' surviving taxa |
| Selection.EmptyGeneDropsTaxon | MI_coevolution_v2.py:101-103 | a taxon whose kept row has an empty GN disappears entirely: it is not shared and no written row has it |
| Selection.LabelFrame.constructor | MI_coevolution_v2.py:93-94 | the frame holds the parsed labels in order |
| Selection.LabelFrame.SortValues | MI_coevolution_v2.py:97 | the frame is sorted by the column and holds the same rows |
| Selection.LabelFrame.DropDuplicates | MI_coevolution_v2.py:98 | the frame holds the first row of each key, in frame order |
| AlignedFasta.SerializeAppend | MI_coevolution_v2.py:114-116 | the text of consecutive records is their texts in order |
| AlignedFasta.Serialize | MI_coevolution_v2.py:114-116 | defines the written text: `">" + OX + "\n" + seq + "\n"` per record; empty exactly when there are no records, and otherwise starting with '>' |
| AlignedFasta.Entries | MI_coevolution_v2.py:116 | defines the records written: one per row, its taxon with its accession's sequence from the map |
| AlignedFasta.WriteRecords | MI_coevolution_v2.py:113-117 | the writer loop produces `">" + OX + "\n" + seq + "\n"` for each row in order, seq looked up by accession |
| AlignedFasta.SplitSerialize | MI_coevolution_v2.py:115-116 | the written text's lines are the header and sequence line of each record, in order |
| AlignedFasta.ReadBack | MI_coevolution_v2.py:114-116 | reading a written file back gives one record per row, header ">" + OX, with the row's sequence |
| AlignedFasta.ReadBackLines | MI_coevolution_v2.py:114-116 | the written lines fold into the records of the rows |
| AlignedFasta.ReadBackStep | MI_coevolution_v2.py:115-116 | one written record in front of lines that read back as some records reads back as that record followed by them |
| AlignedFasta.Basename | MI_coevolution_v2.py:112 | the basename holds no '/' |
| AlignedFasta.BasenameSuffix | MI_coevolution_v2.py:112 | the basename is what follows the last '/', or the whole path without one |
| AlignedFasta.OutputName | MI_coevolution_v2.py:112 | the output path lies in ./BLASTS/, ends in "_blast.fasta", and has bounded length |
| AlignedFasta.RunNames | MI_coevolution_v2.py:112 | for ./FASTAS/id.fasta inputs with six-character ids the output is ./BLASTS/id1_id2_blast.fasta |
| AlignedFasta.OutputNamesCoincide | MI_coevolution_v2.py:112-119 | the two output names are equal when both basenames agree in their first six characters |
| AlignedFasta.SharedPrefixCollides | MI_coevolution_v2.py:112-119 | two accessions such as A0A024R161 and A0A024R1R8, sharing their first six characters, give both sides the same output path |
| AlignedFasta.WrittenFilesHold | MI_coevolution_v2.py:113-124 | both paths are written; the second holds the second text, the first keeps the first text unless the paths coincide, in which case the second write replaces it |
| AlignedFasta.BasenameOfFasta | MI_coevolution_v2.py:112 | the basename of ./FASTAS/id.fasta is id.fasta |
| AlignedFasta.FromParseCovered | MI_coevolution_v2.py:116 | every row drawn from a parse has its accession in the map, so the lookup cannot fail |
| AlignedFasta.WriteAlignedFasta | MI_coevolution_v2.py:88-124 | the first parse error wins; otherwise both frames are deduplicated with a least db per taxon; the output files are the two writes applied in order, so when the two names coincide only the second side's records remain; both sides list the same strictly ascending taxa |

## Left out

- File opening, reading, writing and closing: input is the list of a file's lines and output is the text to write. A written file read back is modelled as its text split at '\n'. Text-mode newline translation is not modelled.
- Strings.Upper: maps only ASCII letters, not Python's full Unicode case mapping.
- Selection.LabelFrame.SortValues: promises only sorted rows and the same multiset of rows. The pandas sort is not stable, so which of several rows with the same taxon and database survives dedup is not determined.
- AlignedFasta.WriteAlignedFasta: returns the surviving rows as ghost values and states the output in terms of them, rather than fixing a tie-break order. The output is the final content of each path written; when both output names coincide, the second write replaces the first, so that file holds only the second side's records.
- The lookup by accession uses the map's sequence. With duplicate accessions, that is the sequence of the last record with that accession, as in `write_aligned_fasta`.
- `RUN`'s `os.system` calls to the aligner and its `time.sleep` calls: these are an external process and timing. Only the naming agreement is kept, as `RunNames`. An accession that is not exactly six characters long gives an output name the driver does not look for.
- `MI_coevolution` (in both `MI_coevolution.py` and `MI_coevolution_v2.py`): it wraps ProDy MSA parsing, merging and refinement and a floating-point mutual-information mean.
- The `__main__` block: pandas/CSV driver code.
- `Run.py`: it orchestrates an external elastic-network library, plotting and file output.
- The hitting-time and commute-time computation: the `HitCommute` module it lives in is not part of this model, and it is floating-point linear algebra.
- The unused flag `is_new_label` (line 46).
