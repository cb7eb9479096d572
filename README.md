# Justified image grid: row layout

This project models `getRows`, the row-layout routine of the justified image grid component. It also proves what the routine guarantees.

The component shows a list of image URLs in rows. `getRows` works as follows:

- It walks the URL list in consecutive groups of three, starting at 0, 3, 6, and so on.
- It takes the matching slice of the aspect-ratio list for each group.
- It skips a group when a ratio in its slice is zero (falsy). A group whose ratios have not loaded yet is not skipped, because the missing ratios are simply absent from its slice. The model, unlike the source, skips such a group; see Findings and Left out.
- It gives every other group one row:
  - each image starts at its width at the target row height;
  - one scale factor stretches the whole row to the container width less two 16-pixel gutters;
  - every cell gets the scaled height.

The model keeps the routine's inputs as parameters: the URL list, the ratio list, the container width and the target row height. Numbers are exact reals.

- `JustifiedGrid` (`justified_grid.dfy`):
  - the cell datatype;
  - array slicing with the clamping of `slice`;
  - the skip test;
  - the layout of one row;
  - the reference function `Layout`: the row of each kept group among the first `w`, in walking order;
  - the method `GetRows`. Its loop mirrors the source loop. It is proved to return `Layout` of all groups.
- `JustifiedGridProperties` (`justified_grid_properties.dfy`) proves, about that result:
  - which groups become rows, and that rows keep group order;
  - how many rows there are;
  - what each row contains;
  - the geometry of every cell;
  - that the target height cancels out.
- `JustifiedGridFindings` (`justified_grid_findings.dfy`):
  - the skip test as written and as corrected (see Findings);
  - a worked example.

The ratio list may have any length. While ratios are still loading it can be shorter than the URL list. After the URL list changes it can briefly be longer. `Slice` models how `slice` clamps its bounds in both cases.

## Model

| member | source | states |
|---|---|---|
| JustifiedGrid.GetRows | app/components/justified-grid.tsx:48-84 | The loop over group starts 0, 3, 6, … returns exactly the rows of `Layout` over all `ceil(n/3)` groups. Each kept group adds its row, in order; a skipped group adds nothing. |
| JustifiedGrid.Slice | app/components/justified-grid.tsx:53-54 | A slice has as many entries as the clamped bounds allow (none when it starts past the end). |
| JustifiedGrid.SliceAt | app/components/justified-grid.tsx:53-54 | Entry `k` of a slice is entry `start + k` of the list, and lies inside both the bounds and the list. |
| JustifiedGrid.ImageGroup | app/components/justified-grid.tsx:53 | `images.slice(i, i + 3)` has at most three URLs: `min(3, n - i)` when `i` is inside the list, none otherwise. `SliceAt` gives its entries. |
| JustifiedGrid.RatioGroup | app/components/justified-grid.tsx:54 | `imageRatios.slice(i, i + 3)` has at most three ratios: `min(3, m - i)` when `i` is inside the ratio list, none past its end (a list not yet loaded or shorter than the URLs). |
| JustifiedGrid.Falsy | app/components/justified-grid.tsx:57 | The `!r` test on a number: a ratio is falsy exactly when it is zero. NaN is not modelled. Its meaning for a group is stated by `KeptMeansRated`. |
| JustifiedGrid.SomeFalsy | app/components/justified-grid.tsx:57 | `rowRatios.some((r) => !r)`: some entry of the slice is falsy. `KeptMeansRated` and `AsWrittenKeepsUnratedGroup` state its consequences. |
| JustifiedGrid.KeptAsWritten | app/components/justified-grid.tsx:56-57 | The skip test as written: a group is laid out when no ratio present in its slice is falsy. `AsWrittenKeepsUnratedGroup` shows that, when every ratio present is positive, it passes a group with missing ratios. `AsWrittenAgreesWhenRated` shows that it agrees with `Kept` once every URL has a ratio. |
| JustifiedGrid.Kept | app/components/justified-grid.tsx:56-57 | The corrected test, which `GetRows` uses: the written test plus at least one ratio per URL of the group. For non-negative ratios, `KeptMeansRated` states that it holds exactly when every URL of the group has a ratio and every ratio of the slice is positive. |
| JustifiedGrid.AvailableWidth | app/components/justified-grid.tsx:60-61 | The width a row fills is the container width less two gutters of `Spacing` = 16, that is, less 32. |
| JustifiedGrid.InitialWidths | app/components/justified-grid.tsx:64 | One initial width per ratio of the slice: the ratio times the target height. `TotalOfScaled` states their sum. |
| JustifiedGrid.Total | app/components/justified-grid.tsx:65 | The left-fold sum of `reduce((sum, w) => sum + w, 0)`. `TotalOfScaled` says that scaling every entry scales the sum, and `SumToPositive` that entries that are all positive have a positive sum. |
| JustifiedGrid.SumTo | app/components/justified-grid.tsx:65 | The sum of the first `n` entries, added from the left. `SumToScaled` and `SumToPositive` are its inductive partners. |
| JustifiedGrid.SumToScaled | app/components/justified-grid.tsx:64-65 | Summing the first `n` entries after scaling each by `c` gives `c` times their sum. |
| JustifiedGrid.SumToPositive | app/components/justified-grid.tsx:65-68 | The sum of the first `n > 0` entries of an all-positive list is positive. |
| JustifiedGrid.GroupCount | app/components/justified-grid.tsx:52 | The loop walks `ceil(n/3)` groups: `3c >= n` and `3c < n + 3`. |
| JustifiedGrid.GroupRatiosNonNegative | app/components/justified-grid.tsx:54 | Every ratio of a group's slice is an entry of the full ratio list, so it is non-negative too. |
| JustifiedGrid.KeptFlags | app/components/justified-grid.tsx:52-57 | One flag per group walked, in order. Flag `k` says whether the group starting at `3k` passes the skip test. |
| JustifiedGrid.ListedAreFlagged | app/components/justified-grid.tsx:52-57 | Every group listed among the first `w` is one of them and is flagged. |
| JustifiedGrid.KeptGroupIsKept | app/components/justified-grid.tsx:52-57 | Every kept group among the first `w` was walked, starts inside the URL list and passes the skip test. |
| JustifiedGrid.GroupRow | app/components/justified-grid.tsx:58-78 | A kept group's row has one cell per URL of the group, including a trailing group of one or two. |
| JustifiedGrid.Layout | app/components/justified-grid.tsx:52-79 | After `w` groups there are exactly as many rows as kept groups among them. |
| JustifiedGrid.LayoutStep | app/components/justified-grid.tsx:52-79 | Walking one more group leaves earlier rows as they are. It appends that group's row when the group is kept, and nothing otherwise. |
| JustifiedGrid.KeptHasPositiveTotal | app/components/justified-grid.tsx:57-68 | In a kept group every ratio is positive. So the total initial width is positive and the scale factor's division is defined. |
| JustifiedGrid.TotalOfScaled | app/components/justified-grid.tsx:64-65 | The sum of the initial widths is the target height times the sum of the ratios. |
| JustifiedGrid.LayoutRow | app/components/justified-grid.tsx:60-77 | A row has one cell per URL of its group. |
| JustifiedGrid.LayoutCell | app/components/justified-grid.tsx:64-76 | Facts about each cell of a row: 1. its URL is its image's; 2. its height is the row's one height; 3. its width is its ratio times its height; 4. that height times the slice's ratio total is the container width less 32. |
| JustifiedGrid.LayoutRowGeometry | app/components/justified-grid.tsx:60-76 | A row never has more cells than ratios. All its cells share the first cell's height. Each width is its ratio times that height. That height times the ratio total is the container width less 32. |
| JustifiedGrid.LayoutRowSrcs | app/components/justified-grid.tsx:73-74 | A row's URLs are its group's URLs, in order. |
| JustifiedGrid.LayoutRowFillsWidth | app/components/justified-grid.tsx:60-75 | When the group's ratio slice matches its URL slice, the cell widths add up to the container width less 32. |
| JustifiedGrid.LayoutCellIgnoresTarget | app/components/justified-grid.tsx:64-69 | Two positive target heights give the same cell. |
| JustifiedGrid.LayoutRowIgnoresTarget | app/components/justified-grid.tsx:64-69 | Two positive target heights give the same row. |
| JustifiedGridProperties.ListedIncrease | app/components/justified-grid.tsx:52-57 | The listed groups strictly increase, so the walk visits each group once and in order. |
| JustifiedGridProperties.FlaggedAreListed | app/components/justified-grid.tsx:52-57 | Every flagged group among the first `w` is listed. |
| JustifiedGridProperties.ListedCount | app/components/justified-grid.tsx:52-57 | At most `w` groups are listed, and exactly `w` if and only if all of them are flagged. |
| JustifiedGridProperties.ListedAll | app/components/justified-grid.tsx:52-57 | When every group is flagged, the list is `0, 1, …, w - 1`. |
| JustifiedGridProperties.LayoutRowIsKeptGroup | app/components/justified-grid.tsx:52-79 | Row `r` is the row of the `r`-th kept group. That group starts inside the URL list and passes the skip test. |
| JustifiedGridProperties.GroupHasRowIffKept | app/components/justified-grid.tsx:52-72 | A group gets a row if and only if it passes the skip test. |
| JustifiedGridProperties.RowsInGroupOrder | app/components/justified-grid.tsx:52-72 | An earlier row belongs to a strictly earlier group: rows follow group order and no group has two rows. |
| JustifiedGridProperties.RowCount | app/components/justified-grid.tsx:52-57 | There are at most `ceil(n/3)` rows. There are exactly that many if and only if every group is kept. |
| JustifiedGridProperties.RatedGroupIsKept | app/components/justified-grid.tsx:54-57 | With at least one ratio per URL and every ratio positive, every group passes the skip test. |
| JustifiedGridProperties.RatedRowCount | app/components/justified-grid.tsx:52-57 | With at least one ratio per URL and every ratio positive, there are exactly `ceil(n/3)` rows. |
| JustifiedGridProperties.RowSrcs | app/components/justified-grid.tsx:52-77 | Row `r` holds `min(3, n - i)` cells, whose URLs are `images[i..]` in order, where `i` is its group's start. |
| JustifiedGridProperties.SliceRowFits | app/components/justified-grid.tsx:54-76 | The geometry of a non-empty row, stated against its group's ratio slice, carries over to the full ratio list at the group's start. |
| JustifiedGridProperties.GroupRowFits | app/components/justified-grid.tsx:60-76 | The row of a kept group fits. `RowFits`/`CellFits` mean: every cell has a ratio, every cell has the row's height, width is ratio times height, and height times the group's ratio total is the available width. |
| JustifiedGridProperties.GroupHasPositiveTotal | app/components/justified-grid.tsx:57-68 | A kept group's ratios have a positive total, so the division by the total width is defined. |
| JustifiedGridProperties.RowCellGeometry | app/components/justified-grid.tsx:52-77 | Every row of the result fits, as in `RowFits`, and its group's ratio total is positive. So the shared height is `(containerWidth - 32) / sum(ratios)`, whatever the target height. |
| JustifiedGridProperties.RowFillsWidth | app/components/justified-grid.tsx:60-75 | A row whose group has no more ratios than URLs has widths that add up to `containerWidth - 32`. This holds for a row of three and for a trailing row of one or two, whatever the rest of the ratio list holds. |
| JustifiedGridProperties.ShortRatiosFillWidth | app/components/justified-grid.tsx:60-75 | When no ratio lies beyond the last URL, every row's widths add up to `containerWidth - 32`. |
| JustifiedGridProperties.FlattenGroups | app/components/justified-grid.tsx:52-77 | When row `k` holds the URLs of group `k` for each of the first `n` groups, those rows list the first `min(3n, len)` URLs in order. |
| JustifiedGridProperties.KeptRowSrcs | app/components/justified-grid.tsx:52-77 | When every group is kept, row `k` holds exactly the URLs of group `k`. |
| JustifiedGridProperties.KeptLayoutFlattens | app/components/justified-grid.tsx:52-77 | When every group is kept, the rows list every URL once, in order. |
| JustifiedGridProperties.RatedLayoutFlattens | app/components/justified-grid.tsx:52-77 | With at least one ratio per URL and every ratio positive, the rows, read in sequence, give back the URL list. |
| JustifiedGridProperties.LayoutIgnoresTarget | app/components/justified-grid.tsx:64-69 | Any two positive target heights give the same rows. |
| JustifiedGridFindings.AsWrittenKeepsUnratedGroup | app/components/justified-grid.tsx:57 | When every ratio present is positive and a group has fewer ratios than URLs, the written test passes the group and the corrected test rejects it. |
| JustifiedGridFindings.FirstRenderExample | app/components/justified-grid.tsx:57 | One URL and no ratios (the state before loading): the written test passes and the total width is zero. The corrected layout has no row. |
| JustifiedGridFindings.AsWrittenAgreesWhenRated | app/components/justified-grid.tsx:57 | Once every URL has a ratio, the written and corrected tests agree. |
| JustifiedGridFindings.KeptMeansRated | app/components/justified-grid.tsx:57 | For non-negative ratios, the corrected test keeps a group if and only if every URL has a ratio and every ratio is positive. |
| JustifiedGridFindings.ThreeImageExample | app/components/justified-grid.tsx:60-77 | Ratios 2, 1 and 3 in a 1000-wide container give one row 484/3 high, with widths 968/3, 484/3 and 484. |

## Left out

- The container-width measurement and the resize subscription (app/components/justified-grid.tsx:18-28). They are browser I/O, so the container width is a parameter.
- The asynchronous ratio loading (app/components/justified-grid.tsx:30-46). It is browser I/O and concurrency. The ratio list is a parameter of any length, and its relation to the URL list is stated where a property needs it.
- IEEE double arithmetic: rounding, Infinity and NaN. The model computes with exact reals.
- The log call (app/components/justified-grid.tsx:81) and the rendering markup (app/components/justified-grid.tsx:86-103). They are output only.
- JustifiedGrid.GetRows: requires non-negative ratios and a positive target height. These are what loaded ratios and the documented positive height (default 300) give. With a zero height, or with negative ratios that sum to zero, the source divides by a zero total and produces Infinity or NaN cells, which the reals do not model. A negative target height cancels out just as a positive one does, so the source gives the same layout for it; the model does not cover that case.
- JustifiedGrid.GetRows: the `continue` is modelled as a guarded append. The inputs are values, so the source's promise that it leaves `images` and the ratio list unmodified holds by construction.
- JustifiedGrid.GetRows: uses the corrected skip test, `Kept`, not the test as written (see Findings). The two agree once every URL has a ratio.
- JustifiedGridProperties.RowFillsWidth: stated for each row whose group has no more ratios than URLs. Only a trailing group of one or two URLs can have more, when a ratio list left over from a longer URL list is still in use. Its extra ratios go into that row's total, so that row falls short of the width. `RowCellGeometry` states the exact height in every case.

## Findings

| source | as written | input that shows it | evidently intended | confidence | as-written member | corrected member |
|---|---|---|---|---|---|---|
| app/components/justified-grid.tsx:57 | The skip test looks only at the ratios present in the group's slice. A group whose images have no ratio yet, because ratios start out empty, passes: the slice is empty or short. Its total width is then zero or misses entries, and the cells get Infinity or NaN sizes. | images `["a"]`, ratios `[]` (the state before the first load finishes) | Skip the group until every image in it has a known, non-zero ratio, as the comment on the test says | not executed | JustifiedGrid.KeptAsWritten, JustifiedGridFindings.AsWrittenKeepsUnratedGroup, JustifiedGridFindings.FirstRenderExample | JustifiedGrid.Kept, JustifiedGridFindings.KeptMeansRated |
