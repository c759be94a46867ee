# Saturation cut of the sorcha post-processing pipeline

This project models `PPBrightLimit`, the stage of sorcha's survey-simulation
post-processing that removes observations brighter than the instrument's saturation
limit. An observation is too bright when its apparent magnitude `observedPSFMag` is
numerically smaller than the limit. The limit takes one of three forms:

- a single float applied to every row;
- a list of floats, where `bright_limit[i]` belongs to `observing_filters[i]` and
  applies only to rows whose `optFilter` is that filter;
- anything else, which is a fatal error.

The survivors keep their order and their columns, and the table's index is reset to
0, 1, ..., k-1.

Modules:

- `Frames` (`frames.dfy`) holds the slice of a pandas DataFrame the cut relies on.
  A row is an index label plus its columns (`Row(index, obs)`). `Drop` is
  `DataFrame.drop`: it removes by label, so a label that repeats removes every row
  carrying it. `ResetIndex` is `reset_index(drop=True)`.
- `BrightLimit` (`bright_limit.dfy`) holds the cut itself. `Limit` is
  `Single | PerFilter | Other`, which is the outcome of the source's exact `type(...) is`
  test. `Cut` is the cut as a function. The method `PPBrightLimit` follows the source's
  shape: the type branches, the loop over the filters that accumulates `drop_index`,
  the flattening, the drop and the index reset. It is proved equal to `Cut`.
- `BrightLimitProperties` (`bright_limit_properties.dfy`) holds what the cut promises.
  `Passing` is an independent reference filter ("rows that are not too bright"). The
  lemmas cover the following:
  - with distinct labels, `Cut` keeps exactly those rows;
  - the rule for each mode;
  - the "largest listed limit wins" reading of repeated filter names;
  - order preservation, idempotence and unread extra limits.

Errors are values. The `Other` case is `Err(NotFloatOrList)`; the source logs that
message and calls `sys.exit`. The docstring asks for one limit per filter, but nothing
checks it. A shorter list raises `IndexError` at `bright_limit[len(list)]`, so the model
returns `Err(IndexError(|limits|))` instead of requiring a long enough list.

The type test is exact: `ClassifyLimit` maps the Python value handed in to a `Limit`.
An integer such as `16` is `Other` and fails, while `16.0` is a single limit.

## Model

| member | source | states |
|---|---|---|
| `Frames.Drop` | src/sorcha/modules/PPBrightLimit.py:32-34 | `DataFrame.drop`: a row is in the result iff it is in the input and its label is not listed; the result is never longer |
| `Frames.DropKeepsOrder` | src/sorcha/modules/PPBrightLimit.py:48 | the columns of the rows `drop` keeps are an order-preserving subsequence of the input's, each row unchanged |
| `Frames.DropNothing` | src/sorcha/modules/PPBrightLimit.py:48 | dropping labels that no row carries returns the frame unchanged |
| `Frames.ResetIndex` | src/sorcha/modules/PPBrightLimit.py:54 | `reset_index(drop=True)`: labels become 0..k-1 with no gaps, and the columns and their order are unchanged |
| `Frames.ResetIndexOfNumbered` | src/sorcha/modules/PPBrightLimit.py:54 | resetting a frame already numbered 0..k-1 leaves it as it is |
| `BrightLimit.ClassifyLimit` | src/sorcha/modules/PPBrightLimit.py:31-50 | the exact `type(...) is` test: a float gives a single limit, a list gives per-filter limits, and every other value, an integer included, falls to the error branch |
| `BrightLimit.IntegerLimitRejected` | src/sorcha/modules/PPBrightLimit.py:31-52 | an integer limit `n` makes the cut fail with the "float or list" error, while the float `n.0` is applied as a single limit |
| `BrightLimit.MaskIndex` | src/sorcha/modules/PPBrightLimit.py:41-43 | `observations[mask].index`: a label is listed iff some row carrying it satisfies the mask |
| `BrightLimit.Flatten` | src/sorcha/modules/PPBrightLimit.py:47 | a label is in `flat_index` iff it is in one of the per-filter lists |
| `BrightLimit.FlattenedDropIndex` | src/sorcha/modules/PPBrightLimit.py:37-47 | after the loop over the filters, a label is in `flat_index` iff some row carrying it has a listed filter `filters[i]` and a magnitude below `bright_limit[i]` |
| `BrightLimit.DropLabels` | src/sorcha/modules/PPBrightLimit.py:31-48 | in both modes, the labels handed to `drop` are exactly the labels of the rows that are too bright |
| `BrightLimit.Cut` | src/sorcha/modules/PPBrightLimit.py:31-54 | the cut succeeds iff the limit is a float, or a list at least as long as the filters; any other type gives the "float or list" error, and a short list gives an index error at position `len(list)`; on success no surviving row is too bright, there are no more rows than in the input, and they are numbered 0..k-1 |
| `BrightLimit.PPBrightLimit` | src/sorcha/modules/PPBrightLimit.py:5-56 | the branching, the loop accumulating `drop_index` filter by filter, the flattening, the drop and the index reset together compute exactly `Cut`, including both error paths |
| `BrightLimitProperties.Passing` | src/sorcha/modules/PPBrightLimit.py:24-27 | reference definition: a row is a survivor iff it is an input row and it is not too bright for its filter |
| `BrightLimitProperties.DropByRule` | src/sorcha/modules/PPBrightLimit.py:32-34 | when a row's label is listed exactly when that row is too bright, `drop` returns exactly the reference survivors |
| `BrightLimitProperties.CutKeepsExactlyPassing` | src/sorcha/modules/PPBrightLimit.py:31-54 | with distinct index labels, the output is exactly the rows that are not too bright, in input order, renumbered from zero |
| `BrightLimitProperties.SingleLimitCut` | src/sorcha/modules/PPBrightLimit.py:31-34 | single float limit: a row survives iff `limit <= observedPSFMag`, so a magnitude equal to the limit survives |
| `BrightLimitProperties.EffectiveLimit` | src/sorcha/modules/PPBrightLimit.py:40-42 | the largest limit paired with a filter among the first `len(observing_filters)` limits; None iff the filter is not listed |
| `BrightLimitProperties.PerFilterUsesLargestLimit` | src/sorcha/modules/PPBrightLimit.py:40-44 | per-filter mode: a row is too bright iff its filter is listed and its magnitude is below the largest limit listed for that filter |
| `BrightLimitProperties.PerFilterCut` | src/sorcha/modules/PPBrightLimit.py:36-48 | per-filter mode with distinct labels: a row survives iff its filter is unlisted or its magnitude is at least that filter's largest limit; a row with an unlisted filter always survives, whatever its magnitude |
| `BrightLimitProperties.CutKeepsOrder` | src/sorcha/modules/PPBrightLimit.py:31-54 | for any index labels, a successful cut's output columns are an order-preserving subsequence of the input's, with no more rows, numbered 0..k-1 |
| `BrightLimitProperties.CutIdempotent` | src/sorcha/modules/PPBrightLimit.py:31-48 | applying the cut to its own output with the same filters and limit returns that output unchanged |
| `BrightLimitProperties.ExtraLimitsIgnored` | src/sorcha/modules/PPBrightLimit.py:40-42 | limits beyond the last listed filter are never read: appending more limits does not change the result |

## Left out

- Logging and process exit (`logging.error`, `sys.exit`) become the `Err(NotFloatOrList)` value; nothing is written or terminated.
- Magnitudes are `real`. IEEE floating point and NaN are not modelled. A NaN magnitude compares false, so the source keeps such a row.
- Limits inside a list are numbers. A list element that cannot be compared with a magnitude would raise a `TypeError` in the source; that is not modelled.
- Pandas raises `KeyError` when `drop` is given a label the frame lacks. It is not modelled, because every label the cut passes to `drop` comes from the frame itself.
- The columns other than `observedPSFMag` and `optFilter` are an opaque `seq<string>`; their types do not matter to the cut.
- The per-row rule ("survives iff not too bright") is stated under distinct index labels. With repeated labels, `Drop` models pandas' behaviour: a row goes whenever any row with its label is too bright. `CutKeepsOrder`, `CutIdempotent` and `Cut`'s own guarantees hold for any labels.
