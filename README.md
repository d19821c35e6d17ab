# DASH analysis session — a Dafny model

DASH is a desktop viewer for time-series files (`main.py`). A file is parsed and its time column
chosen. Rows are ordered by time and optionally cut to a time range. Every numeric column becomes
a series with a [0,1] normalisation, and the session plots the series in salience order. The user
then works on that session:

- switches series on and off and sets their downsampling;
- attaches per-series condition rules that an event finder scans for;
- adds threshold lines, notes, highlighted spans and bookmarks;
- overlays a reference file;
- zooms, fits and jumps the view, and exports the visible samples.

This project models that session and the rules it follows.

Modules, one file each:

| module | what it models |
|---|---|
| `Wrappers` | `Option` and `Result` |
| `Text` | the string primitives used: ASCII lower-casing, substring test, character count |
| `Units` | `unit_from_name` |
| `Delimiter` | the rule `sniff_delimiter_quick` applies after the CSV sniffer |
| `Data` | the dataset: time axis in integer nanoseconds; per series, raw and normalised samples, `None` standing for NaN or a non-finite value |
| `Normalize` | the per-series min/max normalisation |
| `Ingest` | `_read_and_prepare` from the parsed table on: time-column choice, time parse, sort, range filter, series columns, normalisation, dropping rows with no sample |
| `Conditions` | the condition rules, the `find_rules` table as an ordered association list, and the scan `run_event_finder` performs |
| `Ranking` | the stable salience ranking of `_plot_all` and the choice made by `show_first_only` |
| `Viewport` | the anchored wheel zoom, fit padding, go-to-range clamping, nearest-sample lookup and the visible-range mask |
| `Compare` | the laxer reference ingestion of `open_compare_file` and the common-series filter |
| `Dash` | the `Session` class, whose methods update the window's state in place, and the CSV export |

Where the description of the system and the code differ, the model follows the code:

- A load whose rows all fail the time parse or the range filter fails. `np.nanmin` on an empty
  array raises, so this is `NoRows`.
- A reload keeps the bookmarks and the highlight mode and its pending first click.
- A failed load still changes the time column once one has been chosen.
- Switching compare mode off removes only the overlay curves; the reference data stays.

## Model

| member | source | states |
|---|---|---|
| Units.UnitFromName | main.py:68-84 | The unit is "" exactly when no key of the table occurs in the lower-cased name. Otherwise it is the unit of the first entry, in table order, whose key occurs. |
| Delimiter.ChooseDelimiter | main.py:48-57 | A sniffed delimiter is kept, except that a sniffed space becomes a tab exactly when the sample has more tabs than spaces. When sniffing fails: no delimiter (automatic detection) exactly for a `.tsv`/`.dat` extension in any case, else a comma. |
| Delimiter.ChosenIsSniffable | main.py:52-54 | The post-rule never yields a delimiter outside the sniffable set `, \t ; \| space`. |
| Delimiter.ExtensionCaseInsensitive | main.py:56-57 | `.TSV` and `.Dat` fall back to automatic detection; `.csv` gets a comma. |
| Normalize.MinPresent | main.py:506 | `nanmin`: None exactly when no sample is present; otherwise a present sample no greater than any present sample. |
| Normalize.MaxPresent | main.py:506 | `nanmax`: None exactly when no sample is present; otherwise a present sample no smaller than any present sample. |
| Normalize.Rescale | main.py:507 | On `lo <= v <= hi` with `lo < hi`: the scaled value lies in [0,1], `lo` maps to 0, `hi` to 1, and unscaling gives `v` back. |
| Normalize.Normalized | main.py:505-508 | One normalised sample per raw sample. With a spread, a normalised sample is present exactly when the raw one is; without one, every sample is 0. |
| Normalize.NormalizedInUnitRange | main.py:505-508 | With a spread: a normalised sample is present exactly when the raw one is, lies in [0,1], and is 0 at the minimum and 1 at the maximum. |
| Normalize.NormalizedRoundTrip | main.py:505-508 | With a spread: `n * (max - min) + min` gives back every present raw sample. |
| Normalize.NormalizedFlatIsZero | main.py:505-508 | Without a spread (all missing, or min = max) the normalised series is all zeros. |
| Ingest.TimeColumn | main.py:472 | An empty header fails. Otherwise the result is the first candidate, in priority order, that the header has, else column 0. |
| Ingest.Stamped | main.py:474-475 | Exactly the rows whose time cell parsed, each paired with its parsed time. |
| Ingest.StampedCount | main.py:474-475 | Each row whose time parsed is kept once per occurrence in the file, and nothing else is kept. |
| Ingest.SortByTime | main.py:474-476 | A permutation of its input, ordered by non-decreasing time. |
| Ingest.FilterRange | main.py:477-482 | Exactly the records inside the optional inclusive start/end bounds; sortedness is kept. |
| Ingest.FilterRangeCount | main.py:477-482 | Every in-range record is kept as often as it occurs, and no other record is. |
| Ingest.Retained | main.py:474-482 | Sorted by time. Holds exactly the rows whose time parsed inside the range, with their parsed time. |
| Ingest.RetainedCount | main.py:474-482 | A file row whose time parsed inside the range is retained once per occurrence in the file; nothing else is retained. |
| Ingest.Prepare | main.py:467-531 | Fails with `NoColumns` exactly on an empty header. A success carries the chosen time column's name and one series per numeric non-time column, at least one. |
| Ingest.SeriesColumns | main.py:483 | Exactly the numeric columns other than the time column and `_ts_`, in header order. |
| Ingest.PresentRows | main.py:510-512 | Exactly the row numbers where some series has a present sample, increasing. |
| Ingest.DropEmptyRows | main.py:514-516 | Keeps the names. Re-slices the time axis and every raw and normalised series by the same present rows. |
| Ingest.NormalizedOfKeep | main.py:505-516 | Normalising before dropping all-missing rows equals normalising after: the extremes are unchanged. |
| Ingest.IngestValid | main.py:510-521 | A successful load satisfies the dataset invariant: equal lengths, non-decreasing times, a present sample in every row, distinct series names without the time column. The series are the numeric non-time columns in header order. |
| Ingest.IngestInRange | main.py:477-482 | Every retained time lies in the requested range. |
| Ingest.IngestNormalized | main.py:505-516 | Each stored normalised series is the normalisation of its stored raw series. |
| Ingest.IngestFailures | main.py:472-506 | Failure causes, each an iff: `NoColumns` for an empty header; `NoNumericSeries` for no series column; `NoRows` for series columns but no row with a parsed time in range. |
| Ingest.IngestRowSound | main.py:474-521 | Every retained row comes from a file row with that parsed time and the same samples. |
| Ingest.IngestRowComplete | main.py:474-521 | A file row with a parsed in-range time and a present series sample makes the load succeed. It is retained at its time with all its samples. |
| Conditions.ChangePct | main.py:1027 | The Δ% is undefined exactly when the predecessor is zero, and is never negative. |
| Conditions.FiniteRows | main.py:1020-1021 | The finite rows, increasing. The p-th finite value sits in the p-th finite row. |
| Conditions.Hits | main.py:1022-1029 | Exactly the positions of the finite subsequence where gt, lt or Δ fires, increasing. |
| Conditions.Parts | main.py:1032-1038 | Each label part is present exactly when its test holds, so the label has exactly one part per test that holds; a hit has at least one part. Order: gt, then lt, then Δ carrying the change. |
| Conditions.ScanSeries | main.py:1019-1039 | No events for fewer than two rows. Otherwise one event per hit, at the time of its finite row, labelled with its parts. |
| Conditions.ScanSeriesInTimeOrder | main.py:1030-1039 | Over a sorted time axis, one rule's events come in time order. |
| Conditions.ScanRule | main.py:1018-1019 | Every event is a hit on that entry's series; an unknown series yields none. |
| Conditions.ScanSnoc | main.py:1017 | Scanning a table one entry longer appends exactly that entry's events. |
| Conditions.Scan | main.py:1017-1039 | Every scanned event is a rule hit on a series that has an entry in the table. |
| Conditions.DeltaSkipsZeroPredecessor | main.py:1027-1028 | Δ 50% on 10, 5, 0, -5 fires at 5 and 0 but not after the zero. |
| Conditions.PartsInRuleOrder | main.py:1033-1037 | When lt and Δ both hold, the lt part comes first. |
| Conditions.Lookup | main.py:745 | Absent exactly when the series has no entry, otherwise that entry's rule. |
| Conditions.Put | main.py:749 | The new entry is in the result, and the table grows by one entry exactly when the key is new. |
| Conditions.Remove | main.py:750 | Only entries of the table remain, and the table shrinks by one entry exactly when the key was present. |
| Conditions.PutPlace | main.py:749 | Setting an existing key replaces its rule at the same position; a new key goes last. |
| Conditions.RemovePlace | main.py:750 | Clearing a present key removes exactly its entry, the others in order. |
| Conditions.RemoveAbsent | main.py:750 | Clearing an absent key changes nothing. |
| Conditions.PutLookup | main.py:749 | After a put the key reads the new rule, every other key reads as before, and keys stay distinct with no empty rule. |
| Conditions.RemoveLookup | main.py:750 | After clearing, the key reads absent, every other key as before, and the table stays valid. |
| Ranking.ScoreOf | main.py:626-628 | Minus infinity exactly when the series has no finite sample, else the salience of its finite values. |
| Ranking.Rank | main.py:629 | Every column exactly once, higher score first, ties in column order. |
| Ranking.RankUnique | main.py:629 | Any order with those properties is `Rank`: it is the stable descending sort. |
| Ranking.PeakAbs | main.py:777-779 | `nanmax(abs(finite))`: None exactly when no sample is finite, else the largest magnitude, attained by some sample. |
| Ranking.FirstLargestUnique | main.py:780 | At most one position is the first largest peak. |
| Ranking.FirstOnly | main.py:774-782 | None exactly when no series has a finite sample. Otherwise the first series with the largest peak: the comparison is strict. |
| Viewport.Zoom | main.py:130-137 | Both spans are scaled by their factors around the anchor, which keeps its relative place; an axis with factor 1 is unchanged. |
| Viewport.ZoomAxis | main.py:131-137 | The span is scaled by the factor around the anchor, a factor of 1 changes nothing, and an anchor inside stays inside for a positive factor. |
| Viewport.ZoomCompose | main.py:131-137 | Two zooms around one anchor are one zoom by the product. |
| Viewport.ZoomInverse | main.py:131-137 | A zoom by a non-zero factor is undone by its reciprocal. |
| Viewport.Wheel | main.py:97-129 | A zero delta changes nothing. Ctrl zooms y only, else Shift zooms x only, else both. The factor is 0.9 for a positive delta and 1.111111 otherwise. |
| Viewport.WheelDirection | main.py:117-127 | Wheel up narrows each zoomed axis and wheel down widens it, with at least one axis changing strictly. |
| Viewport.WheelUpDownDrift | main.py:117 | One step up then down scales both spans by 0.9999999, not 1. |
| Viewport.Pad | main.py:603-604 | 2% of a positive span, 0 for an empty or inverted one. |
| Viewport.FitView | main.py:602-609 | Both ranges are padded by their `Pad`; on the log scale the lower y bound is raised to 1e-12. |
| Viewport.FitContains | main.py:602-609 | The fitted view contains the auto-range rectangle and a positive span grows by 4%. On the log scale the lower bound stays at or above 1e-12. |
| Viewport.Clip | main.py:935 | The value clamped into `[lo, hi]`, unchanged when already inside. |
| Viewport.GoToRange | main.py:926-938 | Fails exactly when start is not before end. Otherwise both ends are clamped and the range lies within the data span. When the clamped end does not pass the clamped start, the end becomes start plus one second, capped at `xmax`. The range is the request itself when that lies inside, and a collapsed range sits at `xmax`. |
| Viewport.GoToRangeOverlap | main.py:933-938 | A request over one edge of the data is cut at that edge and keeps its other end; one covering the data gives the whole span. |
| Viewport.GoToRangeOutside | main.py:935-936 | A request before the data opens one second (within `xmax`) at its start; one after collapses onto the end. |
| Viewport.NearestIndex | main.py:815 | `argmin` of the distance: none exactly for no samples, else a closest sample and the first one on a tie. |
| Viewport.VisibleRows | main.py:876 | Exactly the samples inside the range, both ends included, increasing. |
| Compare.PrepareReference | main.py:1064-1089 | Only an empty header fails, with `NoColumns`. |
| Compare.ReferenceShape | main.py:1068-1089 | An accepted reference is rectangular and sorted by time. Its names are the numeric non-time columns in header order, distinct. |
| Compare.ReferenceRows | main.py:1068-1089 | Every file row whose time parsed is kept at its time with its samples, even one with no numeric value: no all-missing row is dropped. |
| Compare.ReferenceRowSound | main.py:1068-1089 | Each kept row carries the time and samples of a file row. |
| Compare.CommonSeries | main.py:1097 | Every common series is a primary series that the reference also has. |
| Compare.CommonSeriesSpec | main.py:1097 | The common series are exactly the names in both lists, in primary order (at increasing primary positions), distinct when the primary names are. |
| Dash.Uniform | main.py:525 | Every listed series, and no other, is mapped to the given value. |
| Dash.AssignSpec | main.py:689-695 | Every listed series is set to the value; every other flag is untouched. |
| Dash.InvertedSpec | main.py:697-699 | Every listed series reads negated (a missing flag reading as on); every other flag is untouched. |
| Dash.OnlySpec | main.py:783 | Among the listed series only `keep` is on; every other flag is untouched. |
| Dash.ActivatedSpec | main.py:634-643 | Exactly the ranked series have a flag, and position `p` is on exactly when `p < 6`. |
| Dash.InvertTwice | main.py:697-699 | Inverting twice restores how every series reads. |
| Dash.ToggleTwice | main.py:682-684 | Toggling one series twice restores how every series reads. |
| Dash.RankedNames | main.py:629 | The ranking is a repetition-free ordering of exactly the series names. |
| Dash.ActiveIn | main.py:878 | Exactly the listed series whose flag reads on; repetition-free when the list is. |
| Dash.ActiveInOrder | main.py:878 | The active series keep the list order: they are the list read at increasing positions. |
| Dash.Overlaid | main.py:1095-1101 | The overlay keys are exactly the primary series the reference also has. |
| Dash.ExportVisible | main.py:872-884 | Each failure is an iff: `NoData` with no data or no samples; `NoPointsInRange` with no sample in the visible range; `NoActiveSeries` with no series on. A success exports the visible times. |
| Dash.ExportColumnsSpec | main.py:878-884 | One column per active series, each named once, in plotting order, holding its raw samples at the visible rows. |
| Dash.Session.constructor | main.py:177-204 | Nothing loaded; downsampling on; every collection empty; highlight and compare off. |
| Dash.Session.Load | main.py:433-531 | Fails exactly when ingestion fails, changing only the time column. A success installs the dataset, the series in header order and the ranking, and activates the first six ranked series. It also sets every downsampling flag to the default and clears the rules, thresholds, events, regions and reference. |
| Dash.Session.Install | main.py:520-531 | The state of a successful load, on an already-built dataset, keeping the session invariant. |
| Dash.Session.SetSeries | main.py:520-526 | Installs the dataset and series with every downsampling flag at the default and no activation flag. |
| Dash.Session.ClearOverlays | main.py:527-531 | Thresholds, rules, events, regions, reference and overlay curves are emptied. |
| Dash.Session.PlotAll | main.py:625-643 | The plot order is the ranking and the flags are those of `Activated`. |
| Dash.Session.ToggleActive | main.py:682-684 | Only the clicked series' flag flips, a missing one reading as on. |
| Dash.Session.SelectAll | main.py:689-695 | Every series is set on (or off); nothing else changes. |
| Dash.Session.SelectInvert | main.py:697-699 | Every series' flag is the negation of how it read. |
| Dash.Session.ShowFirstOnly | main.py:774-784 | No change when no series has a finite sample. Otherwise only the first series with the largest peak stays on. |
| Dash.Session.KeepOnly | main.py:783 | Every listed series is off except `keep`. |
| Dash.Session.ToggleSeriesDownsampling | main.py:733-734 | Only that series' downsampling flag flips, a missing one reading as the default. |
| Dash.Session.ToggleDsGlobal | main.py:756-760 | The default becomes the checked state and every plotted series reads it. |
| Dash.Session.SetConditions | main.py:744-750 | Cancel keeps the table. An accepted empty rule clears the entry; any other accepted rule sets it in place. Every other series reads as before, and the table stays valid. |
| Dash.Session.AddThresholdLine | main.py:984-991 | One more value at the end of that series' list, equal values kept. |
| Dash.Session.AddEventLine | main.py:1004-1012 | One event appended at the end of the log. |
| Dash.Session.AddEventAtCursor | main.py:993-1002 | With data and a non-empty accepted label: one note at the sample nearest the cursor. Otherwise nothing. |
| Dash.Session.ToggleHighlightMode | main.py:978-980 | The mode takes the checked state and the pending first click is forgotten. |
| Dash.Session.PlotClicked | main.py:809-848 | With the mode on: a first click stores the nearest sample time. A second click appends the ordered span only for a non-empty accepted label, and always clears the click and turns the mode off. |
| Dash.Session.AddBookmark | main.py:945-956 | Appends exactly one bookmark at the sample nearest the view's middle, an empty label becoming the formatted time. A cancelled dialog adds nothing. |
| Dash.Session.DeleteBookmark | main.py:966-970 | An existing index removes exactly that entry and keeps the rest in order; any other index changes nothing. |
| Dash.Session.RunEventFinder | main.py:1015-1041 | With data, the log gains the scan of the table: rule order, then time order. Without data, nothing. |
| Dash.Session.ScanAll | main.py:1017-1039 | The log gains the scan of the given table. |
| Dash.Session.AddEventLines | main.py:1030-1039 | The log gains the given events, in order. |
| Dash.Session.ToggleCompareMode | main.py:1053-1062 | The mode takes the checked state; turning it off clears the overlays only. |
| Dash.Session.OpenCompareFile | main.py:1064-1102 | With compare on and an accepted file: the reference replaces the compare data and its common series join the overlays. Otherwise nothing. |

## Left out

- Reading files, the CSV sniffer itself, pandas/polars dtype inference and the permissive
  timestamp parser are not modelled. Each cell arrives with its numeric coercion and its
  parsed time, and each column with the reader's numeric verdict.
- Qt widgets, dialogs, menus, the progress bar and the status messages are not modelled; a
  dialog's answer is a parameter. Pens, colours, legend, markers, the log display transform
  and the diagnostics text are not modelled either.
- The UTC to KST conversion and `strftime` are not modelled: times are UTC nanoseconds and the
  bookmark's default label is a formatting function parameter.
- Floating point is not modelled: samples are reals, and NaN or infinity is `None`.
- Ranking.ScoreOf: the salience formula (a weighted standard deviation plus maximum magnitude)
  is a parameter, so only the stable ordering it induces is modelled.
- Conditions.Parts: the Δ part carries the exact change, not its `%.1f` text.
- Ingest.SortByTime: the readers' sort is not stable. The model fixes one admissible order and
  relies only on permutation and sortedness.
- `pyqtgraph`'s `autoRange`, the extra `padding=0.02` of `setXRange` and the view limits are
  not modelled. `_fit_view` is modelled from the rectangle `autoRange` returns.
- `jump_bookmark`, `_jump_to_ns` and `jump_event_item` are not modelled. They move the view by
  a fixed ±5 s or re-parse the list text through pandas.
- The mouse-move and click readouts (info panel, status line) and the time selector dialog are
  not modelled.
- The second event-list row `run_event_finder` adds per hit is not modelled: it is a
  widget-list duplicate, and `event_items` holds each hit once.
- `on_time_col_changed` and the series filter box are not modelled.
- Dash.ExportVisible: not modelled are the float round trip of the exported times through
  seconds, the KST column and the file write. A series without a flag reads as active, as
  `active_for.get(c, True)` does elsewhere. The source's dictionary walk would skip it, but
  after a load every plotted series has a flag, so the two agree on the session's states.
- Dash.Session.AddEventAtCursor, Dash.Session.AddBookmark and Dash.Session.PlotClicked do not
  model one error. On a loaded dataset with no samples,
  `argmin` (and thus the slot) raises; the model changes nothing instead.
- Dash.Session.OpenCompareFile: `curves_ref` is modelled as a set of keys, so the legend order
  of overlay curves is not captured.
- Dash.Session.PlotAll requires the flags to be empty, which `_read_and_prepare` always ensures
  just before.
- Normalize.Normalized: a sample of plus or minus infinity is `None` in the model. In the source
  an infinite extreme fails the `isfinite` test, so that series normalises to all zeros; the model
  instead drops the infinite sample and rescales the finite ones over their own extremes.
- Units.UnitFromName: lower-casing is ASCII only; Python's `str.lower` also folds non-ASCII
  letters.
