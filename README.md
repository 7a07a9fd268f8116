# basic_cleaning, modelled in Dafny

This project models the `basic_cleaning` step of an ML pipeline
(`src/basic_cleaning/run.py`). The step downloads a raw dataset and drops
price outliers. It keeps a row only when its `price` lies in
`[min_price, max_price]`, with both ends inclusive. It then drops every row
that still has a missing value. The cleaned table is written to
`clean_sample_YYYYMMDD_HHMMSS.csv`, and that same file is logged as a new
artifact under the same name.

Layout:

- `wrappers.dfy`: `Result`, used for the exceptions the cleaning raises.
- `seqs.dfy`: order-preserving selection. It has `Filter` (a per-row test) and `Select` (a boolean mask), plus a subsequence predicate and the facts about them.
- `frames.dfy`: the table. A cell is a number, text or missing (NaN). A row maps column names to cells. A frame is a header plus rows in file order. A header column the row has no cell for reads as missing, as it does in a data frame.
- `cleaning.dfy`: the two stages (`DropOutliers`, `DropNa`), the in-place form of `dropna`, and the whole rule `Clean`.
- `cleaning_facts.dfy`: properties of the rule, plus the two worked scenarios.
- `naming.dfy`: the timestamp, zero-padded formatting, and the output name with its inverse.
- `pipeline.dfy`: the step `Go`, and the workspace it writes to (local files and logged artifacts).

The per-row rule `Clean` is specified against a single-pass reference filter,
`Keep` ("in range and complete"). Every property of the cleaned table follows
from that connection. The in-place `DropNaInPlace` and the step `CleanFrame`
are proved equal to the functional definitions.

The artifact's name is always the timestamp-derived file name. The
`--output_artifact` argument is accepted but never used (`run.py:41` against
`run.py:29`). `Go`'s contract states this: its result and the logged
artifact's name are `OutputFilename(now)`, which does not depend on `args`.
The bounds are not checked against each other. With `min_price > max_price`
the cleaned table is simply empty (`InvertedBoundsGiveEmpty`).

## Model

| member | source | states |
|---|---|---|
| Frames.Price | src/basic_cleaning/run.py:16 | `df['price']` read for one row. A present price is the row's price cell. A row without one reads as missing, so its price is present iff the row is complete for the price column. |
| Frames.Between | src/basic_cleaning/run.py:16 | `Series.between` with both ends inclusive: a cell that passes is a number and the bounds are in order. A price equal to either bound passes exactly when lo <= hi. |
| Cleaning.PriceMask | src/basic_cleaning/run.py:16 | The mask `idx` has one entry per row. Selecting rows with it is the same as filtering by "price in [lo, hi]". |
| Seqs.Select | src/basic_cleaning/run.py:17 | `df[idx]`: every selected row is from the input, and every row the mask marks is selected. `Seqs.SelectByMask` gives the exact result in order. |
| BasicCleaning.AddFile | src/basic_cleaning/run.py:33 | `add_file` appends the path to the artifact's files and keeps its name, type and description. |
| Cleaning.DropOutliers | src/basic_cleaning/run.py:16-17 | Fails with MissingPriceColumn iff there is no price column, and with NonNumericPrice iff some price is text. Otherwise it keeps the header and keeps exactly the rows whose price is present and lies in the closed interval [lo, hi], in input order. |
| Cleaning.DropNa | src/basic_cleaning/run.py:20 | A row is kept iff it has a present value for every header column, so kept rows are complete and every complete row stays. The result is an order-preserving subsequence of the input. |
| Cleaning.DropNaInPlace | src/basic_cleaning/run.py:20 | Compacting the array in place leaves exactly the complete rows at its front, in their original order, and returns how many there are. The array past that count is unchanged. |
| Cleaning.Clean | src/basic_cleaning/run.py:16-20 | Fails exactly when the price stage fails. Otherwise the header is unchanged, and the rows equal the single-pass filter "price in [lo, hi] and complete". Every kept row is in range and complete. |
| CleaningFacts.CleanMembership | src/basic_cleaning/run.py:16-20 | A row is in the cleaned table iff it is in the input, its price is in [lo, hi] and it has no missing value (soundness and completeness). |
| CleaningFacts.CleanIsSubsequence | src/basic_cleaning/run.py:16-20 | The cleaned rows are an order-preserving subsequence of the input: nothing is invented, reordered or altered. |
| CleaningFacts.CleanCounts | src/basic_cleaning/run.py:17-20 | Row counts: cleaned <= price-filtered <= input. |
| CleaningFacts.MissingPriceDroppedEarly | src/basic_cleaning/run.py:16-17 | A row whose price is missing is already removed by the price stage. |
| CleaningFacts.InvertedBoundsGiveEmpty | src/basic_cleaning/run.py:16-17 | With min_price > max_price, both the price-filtered and the cleaned table are empty. |
| CleaningFacts.BoundsAreInclusive | src/basic_cleaning/run.py:16 | A complete row priced exactly at min_price or at max_price is kept. |
| CleaningFacts.CleanIdempotent | src/basic_cleaning/run.py:16-20 | Cleaning an already cleaned table with the same bounds returns it unchanged. |
| CleaningFacts.StagesCommute | src/basic_cleaning/run.py:16-20 | Dropping outliers and then incomplete rows gives the same rows as the reverse order. |
| CleaningFacts.CleanPreservesWellFormed | src/basic_cleaning/run.py:17-20 | If every input row has exactly the frame's columns, so does every cleaned row. |
| CleaningFacts.ScenarioAllDropped | src/basic_cleaning/run.py:16-20 | Prices 5, 15 (with a missing x) and 25 with bounds [10, 20] give an empty table. |
| CleaningFacts.ScenarioAllKept | src/basic_cleaning/run.py:16-20 | Complete rows priced 12 and 18 with bounds [10, 20] come through unchanged and in order. |
| CleaningFacts.AbsentCellIsMissing | src/basic_cleaning/run.py:20 | An in-range row with no cell for a header column reads as missing there, so dropna drops it. |
| Seqs.SelectByMask | src/basic_cleaning/run.py:16-17 | Selecting with a mask computed row by row from a test is the same as filtering by that test. |
| Naming.Pad | src/basic_cleaning/run.py:23 | Zero-padded formatting gives exactly `width` digits, and reading them back gives the number. |
| Naming.Strftime | src/basic_cleaning/run.py:23 | "%Y%m%d_%H%M%S" is 15 characters: 8 digits, `_`, then 6 digits. Parsing it gives back the timestamp. |
| Naming.OutputFilename | src/basic_cleaning/run.py:24 | The name is 32 characters. It starts with `clean_sample_`, has an 8-digit date, `_` and a 6-digit time, and ends with `.csv`. |
| Naming.FilenameRoundTrip | src/basic_cleaning/run.py:23-24 | The clock reading can be read back from the name it produced. |
| Naming.FilenameCollidesIffSameSecond | src/basic_cleaning/run.py:23-24 | Two runs get the same output name iff they read the clock in the same second. |
| BasicCleaning.CleanFrame | src/basic_cleaning/run.py:16-20 | The mask selection followed by the in-place dropna computes exactly `Clean`, including its error cases. |
| BasicCleaning.Workspace.WriteCsv | src/basic_cleaning/run.py:25 | Writing a file (over)writes that name with the frame and changes nothing else. |
| BasicCleaning.Workspace.LogArtifact | src/basic_cleaning/run.py:34 | Logging appends the artifact to the run's log and changes nothing else. |
| BasicCleaning.Go | src/basic_cleaning/run.py:7-34 | On a cleaning error: the same error, and nothing written or logged. On success: it returns `OutputFilename(now)`. The cleaned table is written under that name. One artifact is logged whose name is that same file name, with the given type and description and that one file; `--output_artifact` plays no part. |

## Left out

- The tracking-store calls `wandb.init` and `run.config.update` (`run.py:8-9`) are not modelled. They only record provenance in an external service.
- Downloading the input artifact and parsing the CSV (`run.py:12-13`) are not modelled. `Go` receives the parsed table as a parameter, so artifact-not-found and parse errors are not modelled.
- The clock reading `datetime.now()` is a parameter.
- Go: a failing file write or upload is not modelled; writing and logging always succeed in the model.
- CSV text formatting by `to_csv` (quoting, `index=False`) is not modelled. The written file is modelled as the frame itself.
- Argument parsing (`run.py:37-49`) is not modelled; `Config` holds the parsed values.
- Prices are exact reals, not IEEE floats. A missing value is `Missing`, not NaN, and NaN bounds are not modelled.
- Naming.Strftime: `%Y` is modelled as four zero-padded digits. Whether years below 1000 are padded depends on the Python version and the platform's C library: recent CPython pads them itself, older versions on Linux do not. So for such years the model's name may differ in length from the real one.
- A price column that mixes text and numbers is modelled as failing. This is what pandas does when it compares a text value with a numeric bound.
