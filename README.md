# font-generation: a Dafny model of `generate.py`

`generate.py` subsets a font for the web. It reads a font file name, an output
name and optional flags from the command line:

- `-s` adds common symbols;
- `-l` adds ligatures;
- `-h` adds the semibold-letter hack;
- a final `base64` token switches on base64 output.

The script concatenates the selected character-subset files into the text
handed to the subsetting engine. It then runs `pyftsubset` with six fixed
option variants, one after another. A failing run prints an error and the
sweep goes on. With `base64`, each successful run adds a record holding its
command, the length of its base64 output and that output. The records are
sorted by length, stably, and printed with their 1-based rank.

The model has one module per part of the script:

| module | file | part of the script |
|---|---|---|
| `Sequences` | `sequences.dfy` | a generic "no repeats" predicate and its lemmas |
| `Arguments` | `arguments.dfy` | `FONT_FILE`, `OUTPUT_FILE`, `BASE64`, `CHARACTER_SUBSETS` |
| `Aggregation` | `aggregation.dfy` | the loop that builds `unicodes` |
| `Variants` | `variants.dfy` | the six-entry `commands` list |
| `Sweep` | `sweep.dfy` | the loop over `commands` that fills `base64_results` |
| `Ranking` | `ranking.dfy` | the sort by length and the rank taken from `list.index` |
| `Generate` | `generate.dfy` | the whole script, end to end |

The script's loops are methods with loop invariants. Each method is proved
against a recursive reference function, and the lemmas about those functions
carry the properties:

- the subset order;
- the flag-iff-present rules;
- the closed form of the aggregated text;
- the commands being distinct and the commented-out variant not being tried;
- a failure only removing its own record;
- sort stability and uniqueness;
- ranks being positions.

The file system is a map from path to contents. What each engine run returns,
its exit status and the base64 text of its output file, is an input sequence
`runs`.

Some behaviours of the code a reader may not expect, all modelled as written:

- The subset texts are concatenated as raw file contents, not merged as a set
  of characters. A character in two files is passed twice.
- All six variants write the same file, `output/<name>.woff2`, so only the
  last successful variant's font is left on disk.
- The comment above the failure branch says "exit", but the script `continue`s,
  so the sweep always attempts all six commands.
- Flags count wherever they appear among the tokens, the script name and the
  two file names included. An output name of `base64` with exactly three
  tokens switches BASE64 on (`Base64WithThreeTokens`).
- `unicodes.txt` is deleted only when the script runs to its end. A missing
  subset file stops the script first.

## Model

| member | source | states |
|---|---|---|
| Arguments.Resolve | generate.py:23-40 | the font is token 1, the output name token 2, BASE64 holds iff the last token is `base64`, and the subsets are `Selected(argv)` |
| Arguments.ResolveSubsets | generate.py:31-40 | the conditional appends give `Selected(argv)`: body characters first, each optional subset present iff its flag is a token, in canonical order |
| Arguments.NamesDiffer | generate.py:31-40 | the four subset names are pairwise different, so a name determines its subset |
| Arguments.KeepRequestedMembers | generate.py:31-40 | filtering keeps exactly the requested subsets and never lengthens the list |
| Arguments.SelectedUnfolded | generate.py:31-40 | the selection is the body characters, then symbols, ligatures and the hack, each present exactly when its flag is |
| Arguments.SelectedShape | generate.py:31-40 | the selection starts with the body characters, keeps the fixed order and holds exactly the requested subsets |
| Arguments.CanonicalOrderHasNoDuplicates | generate.py:31-40 | a list in the fixed subset order has no repeated subset |
| Arguments.CanonicalOrderIsUnique | generate.py:31-40 | two lists in the fixed order with the same members are equal |
| Arguments.SelectionIsDetermined | generate.py:31-40 | any list in the fixed order holding exactly the requested subsets is the script's list |
| Arguments.SelectionIgnoresTokenOrder | generate.py:33-40 | reordering the command-line tokens does not change the selection |
| Arguments.Base64Enabled | generate.py:27 | BASE64 holds iff the tokens are some leading tokens followed by `base64` |
| Arguments.Base64OnlyFromLastToken | generate.py:27 | whatever precedes it, BASE64 holds iff the last token is `base64` |
| Arguments.Base64WithThreeTokens | generate.py:25-27 | with three tokens, BASE64 holds iff the output name is `base64` |
| Aggregation.SubsetPath | generate.py:47 | the file a subset is read from: `charactersubsets/`, the subset's name, `.txt` |
| Aggregation.SubsetPathParts | generate.py:47 | the path is the directory prefix, then exactly the subset's name, then the `.txt` extension |
| Aggregation.SubsetPathsDiffer | generate.py:31-47 | different subsets are read from different files |
| Aggregation.Aggregate | generate.py:45-48 | with every selected file present, the text is the contents joined in list order; otherwise the path reported is the first missing one |
| Aggregation.JoinedAppend | generate.py:46-48 | joining a concatenation of subset lists concatenates their joined texts |
| Aggregation.JoinedSelection | generate.py:31-48 | the text is the body file, then the symbols, ligatures and hack files, each present exactly when its flag is |
| Aggregation.BodyOnlyWithoutFlags | generate.py:31-48 | with no flag the text is the body-characters file alone |
| Aggregation.SymbolsAndLigatures | generate.py:31-48 | with `-s` and `-l` in any positions and no `-h`, the text is body, then symbols, then ligatures |
| Variants.Commands | generate.py:55-63 | there are six commands |
| Variants.RenderedVariants | generate.py:56-62 | the structured flag lists render as the trailing options of the six commands |
| Variants.CommandsFollowVariants | generate.py:55-63 | each command is the shared prefix followed by its variant's options, in sweep order |
| Variants.CommandsDistinct | generate.py:55-63 | the six commands are pairwise different |
| Variants.DisabledVariantNotTried | generate.py:58 | the commented-out no-hinting, desubroutinized variant is none of the six commands |
| Sweep.RecordOf | generate.py:82-86 | a record keeps its command and the encoded text, and its length is the length of that text |
| Sweep.Recorded | generate.py:67-86 | reference definition of `base64_results` after the loop: one record per succeeding command, in command order, and only with BASE64 |
| Sweep.Failures | generate.py:67-75 | reference definition of the printed errors, one per failing command in command order; never more than the commands |
| Sweep.RunSweep | generate.py:65-86 | every command is handed to the engine once, in order; the error list and the records are those of the reference sweep functions |
| Sweep.SweepStep | generate.py:67-86 | one more command adds only that command's error or record |
| Sweep.RecordedSplit | generate.py:67-86 | the records of a sweep are those of a prefix of the commands followed by those of the rest |
| Sweep.FailuresSplit | generate.py:67-75 | the same split holds for the failed commands |
| Sweep.NothingRecordedWithoutBase64 | generate.py:78-86 | without BASE64 no record is made |
| Sweep.OneRecordPerSuccess | generate.py:70-86 | with BASE64 each command gives either one error or one record |
| Sweep.RecordedFromSuccesses | generate.py:70-86 | every record is that of a command whose run succeeded, with its command, length and payload |
| Sweep.AllSucceedAllRecorded | generate.py:70-86 | when every run succeeds, record i belongs to command i |
| Sweep.FailureRemovesOnlyItsRecord | generate.py:72-75 | making one run fail removes only that command's record; the records before and after it stay as they were |
| Sweep.RecordedCommandsDistinct | generate.py:67-86 | distinct commands give records with distinct commands, so no two records are equal |
| Ranking.WithLengthAppend | generate.py:89 | the records of one length in a concatenation are those of each part, in order |
| Ranking.WithLengthMembers | generate.py:89 | the records of length k are exactly the members of length k |
| Ranking.WithLengthCounts | generate.py:89 | a record occurs as often among those of its length as in the whole list |
| Ranking.StableIsPermutation | generate.py:89 | a stable reordering is a permutation |
| Ranking.InsertionSorted | generate.py:89 | inserting after the records no longer than it keeps the list sorted by length |
| Ranking.InsertionStable | generate.py:89 | that insertion leaves each length's records in the order appending would give |
| Ranking.StableSortByLength | generate.py:89 | the result is non-decreasing in length, a stable reordering of the input and a permutation of it |
| Ranking.SortIsUnique | generate.py:89 | two length-sorted stable reorderings of the same records are equal, so every stable sort gives the same list |
| Ranking.IndexOf | generate.py:100 | the index returned is the first position holding an equal record |
| Ranking.Ranks | generate.py:97-101 | each rank is one plus the first index of an equal record; with no repeated records it is the 1-based position |
| Generate.SortAndRank | generate.py:89-101 | the records come out sorted, stably reordered and permuted, with rank i+1 at position i |
| Generate.SweepAndRank | generate.py:55-101 | the six commands are all invoked in order; the failures are those of the sweep; the records come out sorted, stably reordered and permuted, none without BASE64, with rank i+1 at position i |
| Generate.RunScript | generate.py:23-101 | a missing subset file stops the run with the first missing path in list order, iff a selected file is missing; otherwise the report holds the configuration, the joined text, the six commands all invoked in order, the failures, and the stably sorted records ranked by position, with no record without BASE64 |

## Left out

- The engine calls (`os.system`) are not executed. Their results are the `runs` input, and only the comparison of an exit status with 0 is modelled.
- Reading the engine's output file and base64-encoding it are foreign. The encoded text is part of each `runs` entry. Its length is the length of that text, since base64 text is ASCII and one character is one byte there.
- File reads are lookups in the `files` map.
- Writing `unicodes.txt` is kept only as the text stored in the report. Deleting it with `os.remove` is left out.
- The print loops at lines 90-94 and 97-101 are left out, with their colours and messages. The report keeps what they show: the sorted records, their ranks and the commands that failed.
- An exception while an engine output file is read, such as a missing file after a zero exit status, is not modelled.
- With fewer than three tokens the script raises `IndexError`. Here `Arguments.Resolve` and `Generate.RunScript` require three tokens instead.
- `Ranking.StableSortByLength` does not model Python's Timsort. It is an insertion sort over a sequence, not the list sorted in place, so aliasing of `base64_results` is not represented. `Ranking.SortIsUnique` shows that every stable sort by length gives the same result.
- `Generate.RunScript` requires exactly six engine results, one per command.
