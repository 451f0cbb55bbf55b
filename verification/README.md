# piff line diff, modelled in Dafny

piff compares two text files line by line and prints a patch. Each output
line is `A <index> <line>` (add line `index` of the second file) or
`R <index> <line>` (remove line `index` of the first file). The engine fills
two `(m1+1) x (m2+1)` tables with the classical dynamic-programming
recurrence. `distances` holds the insert/remove edit distance between every
pair of prefixes. `actions` holds the move (`I`gnore, `A`dd, `R`emove) that
produced each cell, and a tie between removing and adding goes to `R`. The
engine then walks `actions` back from the last cell to `(0, 0)`, collects an
entry for every `A` and `R` move, reverses the collected entries and prints
them.

The model has three modules:

- `EditDistance` (edit_distance.dfy): the specification. `Dist` is the
  distance recurrence, `Choice` is the move each table cell records, and
  `Trace` is the patch the backtrace produces. Lemmas prove the following:
  - every patch entry is a valid `A` or `R` entry;
  - the `A` indices increase strictly, and so do the `R` indices;
  - the patch is a real diff (see below);
  - the patch is minimal among all diffs;
  - the distance is symmetric;
  - equal inputs give an empty patch.

  The definitions are generic in the line type, because the engine only
  compares lines for equality.
- `PatchFormat` (patch_format.dfy): how one entry is rendered as text. The
  index is written in decimal. The main lemma is that rendering is
  injective: the action, the index and the line can all be read back from
  the rendered line.
- `Piff` (piff.py's `__main__` block, in piff.dfy): the imperative code.
  - `FillTables` fills an `array2<int>` and an `array2<char>` with the
    source's loops.
  - `FillCell` holds the body of the innermost loop.
  - `Backtrace` is the `while` loop over `actions`, followed by the reverse.
  - `Diff` runs the two stages.
  - `RenderPatch` turns the patch into output lines, and `Run` is the whole
    pipeline.

  Each method is proved equal to the specification functions above.

"The patch is a diff" is stated without an applicator, which piff does not
have. Take the lines of the first file and drop those named by `R` entries.
Take the lines of the second file and drop those named by `A` entries. The
two results are the same sequence (`Aligns`), and no line is named twice.
"Minimal" means that every pair of index sets with that property has at
least as many members as the patch has entries (`DistMinimal`).

## Model

| member | source | states |
|---|---|---|
| `EditDistance.DistBounds` | piff.py:52-69 | The distance of prefixes of lengths i and j lies between abs(i - j) and i + j. |
| `EditDistance.Choice` | piff.py:39-69 | Every cell records `I`, `A` or `R`. `A` is recorded only when j > 0, `R` only when i > 0, and `I` away from the origin only where the two lines are equal. |
| `EditDistance.ChoiceIsCheapest` | piff.py:52-69 | Each recorded move gives the cell's value: `A` costs one more than the cell to the left, `R` one more than the cell above, and `I` copies the diagonal. |
| `EditDistance.TraceLength` | piff.py:71-87 | The backtraced patch has exactly `distances[m1][m2]` entries. |
| `EditDistance.TraceEntries` | piff.py:74-81 | Every entry is `(A, k, lines2[k])` with k < m2 or `(R, k, lines1[k])` with k < m1. No `I` entry is ever emitted. |
| `EditDistance.TraceOrdered` | piff.py:71-87 | After the reverse, the `A` indices increase strictly and so do the `R` indices. |
| `EditDistance.TraceAligns` | piff.py:71-87 | Dropping the `R` lines from lines1 and the `A` lines from lines2 leaves equal sequences. The indices are in range and distinct, so their count equals the number of entries (by `TraceLength`, the distance). |
| `EditDistance.DistStepFirst` | piff.py:52-69 | One more line of lines1 changes the table value by at most one, in either direction. |
| `EditDistance.DistStepSecond` | piff.py:52-69 | One more line of lines2 changes the table value by at most one, in either direction. |
| `EditDistance.DistMinimal` | piff.py:52-69 | No set of removals and additions that makes the prefixes agree is smaller than the table value: the table holds the minimal edit distance. |
| `EditDistance.DistSymmetric` | piff.py:52-69 | Swapping the two inputs leaves the distance unchanged. |
| `EditDistance.TraceIdentical` | piff.py:54-57 | Equal inputs keep the diagonal at 0 and give an empty patch. |
| `PatchFormat.Decimal` | piff.py:89 | The index is printed as a non-empty string of decimal digits without leading zeros. |
| `PatchFormat.DecimalRoundTrip` | piff.py:89 | Reading the printed digits back gives the index. |
| `PatchFormat.EntryLineInjective` | piff.py:88-89 | Two entries that print the same line are equal: the letter, the index and the line content can be recovered from the output. |
| `Piff.FillTables` | piff.py:33-69 | Both tables are (m1+1) x (m2+1). Every `distances` cell equals `Dist` and every `actions` cell equals `Choice`. This covers the base row and column, the match case and the tie-break to `R`. |
| `Piff.FillCell` | piff.py:54-69 | One interior cell is set from its three neighbours: equal lines copy the diagonal, otherwise it takes 1 + min(above, left), with `A` only when left < above. No other cell changes. |
| `Piff.Backtrace` | piff.py:71-87 | The walk from (m1, m2) terminates (n1 + n2 decreases), never indexes out of range, and never reaches the unreachable branch. The reversed list equals `Trace`. |
| `Piff.Diff` | piff.py:30-87 | The patch equals `Trace`. It has `distances[m1][m2]` entries, at most m1 + m2. Its entries are valid and ordered, it is a diff, it is minimal among all diffs, and it is empty for equal inputs. |
| `Piff.RenderPatch` | piff.py:88-89 | One output line per entry, in patch order, each `<letter> <decimal index> <line>`. |
| `Piff.Run` | piff.py:30-89 | The program prints as many lines as the edit distance, the k-th rendering the k-th backtraced entry, and prints nothing for equal inputs. |

## Left out

- Reading the files and splitting them into lines (piff.py:5-7, 28-29) is I/O. The two line sequences are parameters of `Diff` and `Run`.
- Argument checking, the usage message and `exit(1)` (piff.py:22-27) are command-line plumbing with no effect on the diff.
- `trace_tables` (piff.py:13-20) is a debugging pretty-printer that only writes to standard output.
- Printing to standard output (piff.py:89) is not modelled. `RenderPatch` and `Run` return the printed lines as a `seq<string>`.
- Parsing a patch and applying it to a file are not part of this model: piff.py has no code for either. The "the patch turns lines1 into lines2" property is stated instead through `Aligns`, which compares what remains after the patch's removals and additions.
- Python's list `reverse()` runs in place. The model reassigns `patch := Reversed(patch)` on an immutable sequence.
- Lines are compared only with `==`, as in the source. Any Unicode handling that Python's `splitlines` does is outside the model.
