# AgrIA server: eco-scheme payment engine and helpers, in Dafny

AgrIA estimates the Common Agricultural Policy eco-scheme aid a farm parcel can claim. This project
models the deterministic core of the server in Dafny and proves properties about it.

- **The eco-scheme payment engine.**
  - It reads the land uses of a parcel, each with its eligible surface.
  - It compiles the eco-scheme rules table into candidate schemes per land-use code.
  - It picks, for every land use, the one scheme that pays most per hectare (the exclusivity rule).
    The pluriannuality bonus of 25 euros per hectare counts towards that choice.
  - It groups the land uses by scheme.
  - It writes the estimate: Peninsular and Insular payments per group, rounded with `ROUND_HALF_UP`,
    and summary totals over the Peninsular figures.
- **The SIGPAC helpers.**
  - Cadastral references are normalised, checked against their two control letters, and split into
    province, municipality, polygon and parcel fields.
  - The parcel metadata sums the surface per land use.
- **The satellite-image helpers.**
  - Sentinel-2 date windows and band grouping.
  - Cloud screening of time steps.
  - The UTM zone of a point.
  - Band reordering, channel stacking, tensor scaling and the comparison grid of the
    super-resolution step.
  - Grouping band files into complete sets per image.
  - Finding the super-resolved image closest in time.
- **The VLM benchmark's reply cleaner.** It cuts the JSON block out of a model's reply.

Conventions:

- A Python `Decimal` or float is modelled as a Dafny `real`. Rounding is modelled explicitly:
  `HalfUp` for `quantize(..., ROUND_HALF_UP)` and `HalfEven` for the built-in `round`.
- A Python dictionary is an insertion-ordered association list (`Assoc`), so iteration order is kept.
- A Python exception becomes the `Err` case of a `Result` (`KeyError`, `TypeError`, `IndexError`, ...).
  A precondition is used only where the Python caller guarantees the input.
- A loop in the source becomes a `method` with invariants. The method is proved equal to a recursive
  specification function, and the lemmas state what that function means.

Files:

| file | models |
|---|---|
| `ecoscheme_rules.dfy` | rules table compilation, thresholds, scheme labels |
| `ecoscheme_selection.dfy` | tier choice, payment per hectare, the exclusivity maximum |
| `ecoscheme_assignment.dfy` | parsed land uses and their assignment |
| `ecoscheme_grouping.dfy` | grouping of assignments by scheme |
| `ecoscheme_report.dfy` | payments, report rows, summary, the whole estimate |
| `decimal_rounding.dfy` | `ROUND_HALF_UP`, `round`, two-decimal text |
| `sigpac_utils.dfy` | cadastral references, parcel metadata |
| `parcel_finder_utils.dfy` | date windows, band grouping by month |
| `sen2sr_utils.dfy` | band reordering, cloud screening, UTM zone, bounds test |
| `sr_utils.dfy` | configuration scale, channel stacking, tensor scaling, comparison grid |
| `sr_band_groups.dfy` | grouping band files into complete sets, output names |
| `sr_benchmark.dfy` | timestamps in file names, the closest super-resolved image |
| `vlm_reply.dfy` | JSON extraction from a model reply |
| `text.dfy`, `assoc.dfy`, `sorting.dfy`, `wrappers.dfy` | Python string, dictionary and `sorted` semantics |

## Model

| member | source | states |
|---|---|---|
| EcoschemeRules.ParseThreshold | server/benchmark/vlm/ecoscheme_classif_algorithm.py:171-172 | a threshold read from the rules is never negative; any other text gives no threshold |
| EcoschemeRules.ThresholdIff | server/benchmark/vlm/ecoscheme_classif_algorithm.py:172 | a threshold text is numeric exactly when it is digits with at most one '.' and at least one digit |
| EcoschemeRules.ThresholdOfNat | server/benchmark/vlm/ecoscheme_classif_algorithm.py:171-172 | the text of a whole number of hectares is read back as that number |
| EcoschemeRules.ThresholdOfFixed2 | server/benchmark/vlm/ecoscheme_classif_algorithm.py:171-172 | a threshold written with two decimals is read back as the same number |
| EcoschemeRules.ThresholdRejectsSign | server/benchmark/vlm/ecoscheme_classif_algorithm.py:172 | a signed text such as "-5" is never a threshold |
| EcoschemeRules.ParseLabel | server/benchmark/vlm/ecoscheme_classif_algorithm.py:163-166 | a label fails (IndexError) exactly when it lacks " - "; otherwise the identifier is the text before the first " - ", the name is the text between the first and second " - " up to its first '(' with whitespace stripped, and the subtype is the text after the last '(' with ')' stripped from both ends |
| EcoschemeRules.ParseRenderedLabel | server/benchmark/vlm/ecoscheme_classif_algorithm.py:163-166 | parsing "id - name (subtype)" gives back id, name and subtype, when id and name hold no '-', name and subtype hold no '(', name has no outer whitespace and subtype no outer ')' |
| EcoschemeRules.RateSpecOf | server/benchmark/vlm/ecoscheme_classif_algorithm.py:199-208 | a dictionary rate becomes tiers that keep both tier values and the record's threshold; a number becomes a flat amount; a text stays a flat text |
| EcoschemeRules.BaseRateDetails | server/benchmark/vlm/ecoscheme_classif_algorithm.py:192-210 | the loop over the two regions gives each region's details, and a region has details exactly when the record has a rate for it |
| EcoschemeRules.SchemeOf | server/benchmark/vlm/ecoscheme_classif_algorithm.py:157-175 | a record gives a scheme unless its label lacks " - "; the scheme is pluriannual exactly when the record says "Applicable"; it has a region's rates exactly when the record has them |
| EcoschemeRules.AppendCandidates | server/benchmark/vlm/ecoscheme_classif_algorithm.py:177-187 | the inner loop appends the scheme to each listed code's candidates, opening a list the first time a code is seen |
| EcoschemeRules.CompileRules | server/benchmark/vlm/ecoscheme_classif_algorithm.py:152-189 | the loop over the records computes the record-by-record fold, stopping at the first failure |
| EcoschemeRules.CompileStepSpec | server/benchmark/vlm/ecoscheme_classif_algorithm.py:156-187 | one record fails exactly when it is eligible and its label lacks " - "; otherwise it appends its scheme to each code it lists, or adds its codes to the non-eligible set |
| EcoschemeRules.CompileFromFails | server/benchmark/vlm/ecoscheme_classif_algorithm.py:152-189 | compiling fails exactly when some eligible record's label lacks " - " |
| EcoschemeRules.CompileFromSpec | server/benchmark/vlm/ecoscheme_classif_algorithm.py:152-189 | from any start, a successful compilation appends to every code the schemes of the records that list it, in table order, and adds every non-eligible record's codes |
| EcoschemeRules.CompiledCandidates | server/benchmark/vlm/ecoscheme_classif_algorithm.py:152-189 | from an empty table, a code has candidates exactly when some eligible record lists it; they are its schemes in table order, one per listing; the non-eligible set is the union of the non-eligible records' codes |
| EcoschemeSelection.TierFor | server/benchmark/vlm/ecoscheme_classif_algorithm.py:235-239 | a flat rate has no tier; a tiered rate pays tier 1 exactly when there is a numeric threshold and the area is at most it |
| EcoschemeSelection.BaseRate | server/benchmark/vlm/ecoscheme_classif_algorithm.py:234-239 | a tiered rate gives tier 1's value in tier 1 and tier 2's value in tier 2 |
| EcoschemeSelection.PaymentPerHa | server/benchmark/vlm/ecoscheme_classif_algorithm.py:241-247 | a numeric rate always gives a payment; a text gives one (of 0) exactly when the scheme takes no bonus and the text holds '/'; other texts fail with TypeError |
| EcoschemeSelection.BonusDifference | server/benchmark/vlm/ecoscheme_classif_algorithm.py:242-244 | a pluriannual scheme with a numeric rate is compared at exactly 25 euros per hectare more than without the bonus |
| EcoschemeSelection.SelectBest | server/benchmark/vlm/ecoscheme_classif_algorithm.py:223-254 | the double loop over regions and candidates computes the running maximum, starting from -1 |
| EcoschemeSelection.SelectFromFails | server/benchmark/vlm/ecoscheme_classif_algorithm.py:227-254 | the running maximum fails exactly when some offer's payment cannot be compared |
| EcoschemeSelection.SelectFromSpec | server/benchmark/vlm/ecoscheme_classif_algorithm.py:227-254 | when every offer is comparable, the running maximum keeps its choice if nothing beats the best so far, and otherwise ends on the first offer with the highest payment |
| EcoschemeSelection.SelectSpec | server/benchmark/vlm/ecoscheme_classif_algorithm.py:223-258 | the selection fails exactly when some offer is not comparable; it picks nobody exactly when no offer pays more than -1; otherwise it picks the first offer with the highest payment, all Peninsular offers before the Insular ones |
| EcoschemeAssignment.ParseBlocks | server/benchmark/vlm/ecoscheme_classif_algorithm.py:37-44 | the loop over the land-use blocks builds the parsed data and adds up the total area of every block |
| EcoschemeAssignment.ParsedDataSpec | server/benchmark/vlm/ecoscheme_classif_algorithm.py:40-44 | the parsed data lists each code once, in order of first appearance, with the area of its last block |
| EcoschemeAssignment.Decide | server/benchmark/vlm/ecoscheme_classif_algorithm.py:216-258 | a land use that a non-eligible record lists, or that has no candidates, is assigned "Non-Eligible"; otherwise the decision fails exactly when the selection over its candidates fails, is none when the selection finds no winner, and is the winner when it finds one |
| EcoschemeAssignment.AssignedWinner | server/benchmark/vlm/ecoscheme_classif_algorithm.py:213-259 | in the finished assignments, each parsed land use is "Non-Eligible" when listed non-eligible or without candidates, is the selection's winner when there is one, and is absent when the selection finds none |
| EcoschemeAssignment.AssignLandUses | server/benchmark/vlm/ecoscheme_classif_algorithm.py:213-259 | the loop over the parsed land uses computes the assignment fold |
| EcoschemeAssignment.AssignAllFails | server/benchmark/vlm/ecoscheme_classif_algorithm.py:213-259 | assigning fails exactly when the decision for some land use fails |
| EcoschemeAssignment.AssignAllSpec | server/benchmark/vlm/ecoscheme_classif_algorithm.py:213-259 | after a successful assignment, every parsed land use reads as its own decision, a land use without a winner stays unassigned, and nothing else is assigned |
| EcoschemeGrouping.GroupKeyNonEligible | server/benchmark/vlm/ecoscheme_classif_algorithm.py:266-269 | an assignment falls in the "Non-Eligible" group exactly when its identifier is "N/A" |
| EcoschemeGrouping.HeadFor | server/benchmark/vlm/ecoscheme_classif_algorithm.py:271-289 | a group opened by an "N/A" assignment gets the non-eligible head, any other group the scheme's head |
| EcoschemeGrouping.NewGroup | server/benchmark/vlm/ecoscheme_classif_algorithm.py:271-289 | a new group starts with no land uses, zero area and the head of its first assignment |
| EcoschemeGrouping.Grown | server/benchmark/vlm/ecoscheme_classif_algorithm.py:291-292 | adding a land use keeps the head, adds its area and appends its code |
| EcoschemeGrouping.GroupAssignments | server/benchmark/vlm/ecoscheme_classif_algorithm.py:262-293 | the loop over the assignments computes the grouping fold |
| EcoschemeGrouping.GroupAllFails | server/benchmark/vlm/ecoscheme_classif_algorithm.py:267 | grouping fails, with KeyError, exactly when some assigned land use is missing from the parsed data |
| EcoschemeGrouping.GroupAllAt | server/benchmark/vlm/ecoscheme_classif_algorithm.py:262-293 | every key reads as its group: present exactly when some assignment has the key, headed by the first such assignment, holding all their codes in order and the sum of their parsed areas |
| EcoschemeGrouping.GroupAllSpec | server/benchmark/vlm/ecoscheme_classif_algorithm.py:262-293 | each key gets one group, in order of first appearance, and a key has a group exactly when some assignment has it |
| EcoschemeGrouping.GroupAllConservesArea | server/benchmark/vlm/ecoscheme_classif_algorithm.py:262-293 | the groups together hold exactly the parsed area of all assigned land uses |
| EcoschemeGrouping.ParcelAreaIsGroupsArea | server/benchmark/vlm/ecoscheme_classif_algorithm.py:37-44 | when the block codes are distinct and every land use is assigned, grouping succeeds and the group areas add up to the parcel's total area |
| EcoschemeGrouping.AssignedAreaOfAll | server/benchmark/vlm/ecoscheme_classif_algorithm.py:262-267 | assignments listing the parsed land uses in parsed order hold the sum of all parsed areas |
| EcoschemeAssignment.ParsedDataDistinct | server/benchmark/vlm/ecoscheme_classif_algorithm.py:39-43 | blocks with distinct codes are their own parsed data, in block order |
| EcoschemeAssignment.AssignAllKeys | server/benchmark/vlm/ecoscheme_classif_algorithm.py:213-259 | when every parsed land use is assigned, the assignments list them in parsed order |
| EcoschemeReport.RateAgreesWithSelection | server/benchmark/vlm/ecoscheme_classif_algorithm.py:317-322 | the report pays a scheme without the bonus at the rate the selection compared, and a pluriannual scheme at 25 euros per hectare less; a rate the report cannot use was not comparable either |
| EcoschemeReport.CalcPayments | server/benchmark/vlm/ecoscheme_classif_algorithm.py:296-329 | a region's payments fail exactly when its rate is a text without '/' |
| EcoschemeReport.Payments | server/benchmark/vlm/ecoscheme_classif_algorithm.py:324-328 | the rate is reported to 6 places and both payments to cents |
| EcoschemeReport.PaymentsSpec | server/benchmark/vlm/ecoscheme_classif_algorithm.py:318-327 | the base payment is within half a cent of area times rate; the payment with the bonus is within half a cent of area times (rate + 25), or equals the base payment when there is no bonus; the rate is within half a millionth |
| EcoschemeReport.BonusPayment | server/benchmark/vlm/ecoscheme_classif_algorithm.py:319-327 | with the bonus a group is never paid less than without it, and the difference is 25 euros per hectare to within a cent |
| EcoschemeReport.InParsed | server/benchmark/vlm/ecoscheme_classif_algorithm.py:70 | the non-eligible row lists exactly those of its codes that are parsed land uses |
| EcoschemeReport.SchemePayments | server/benchmark/vlm/ecoscheme_classif_algorithm.py:83-84 | a scheme row fails exactly when a region has no rates (KeyError) or its rate cannot be used |
| EcoschemeReport.RowOf | server/benchmark/vlm/ecoscheme_classif_algorithm.py:68-113 | a row has payments exactly when it is a scheme group's, and then it carries the scheme's identifier and its Peninsular payments |
| EcoschemeReport.EligibleKeys | server/benchmark/vlm/ecoscheme_classif_algorithm.py:60 | the keys other than "Non-Eligible": every other key, as often as before, and no "Non-Eligible" |
| EcoschemeReport.ReportKeysSpec | server/benchmark/vlm/ecoscheme_classif_algorithm.py:60-61 | the report order is a permutation of the group keys: the scheme keys sorted, then "Non-Eligible" when there is such a group |
| EcoschemeReport.TallyGroup | server/benchmark/vlm/ecoscheme_classif_algorithm.py:65-113 | one pass of the report loop adds the row of one group and its totals |
| EcoschemeReport.TallyGroups | server/benchmark/vlm/ecoscheme_classif_algorithm.py:64-113 | the report loop computes the tally over the keys in order |
| EcoschemeReport.BuildReport | server/benchmark/vlm/ecoscheme_classif_algorithm.py:54-147 | the report is the tally over the groups in report order, then the summary |
| EcoschemeReport.TallyAllOk | server/benchmark/vlm/ecoscheme_classif_algorithm.py:87-94 | over all the groups, the running totals stay in whole cents, the total with the bonus never falls below the total without it, and the pluriannual area stays non-negative |
| EcoschemeReport.TallyAllLines | server/benchmark/vlm/ecoscheme_classif_algorithm.py:64-113 | the report loop gives one line per key, in order; a line has payments exactly when its key is not "Non-Eligible"; every key is a group's; the "Non-Eligible" line is the non-eligible group's, and every other line is its key's group with that group's scheme and both regions' payments |
| EcoschemeReport.SchemeLinesStep | server/benchmark/vlm/ecoscheme_classif_algorithm.py:79-113 | adding a scheme key's line keeps every scheme line its key's group's, with that group's scheme and payments |
| EcoschemeReport.FinishSummary | server/benchmark/vlm/ecoscheme_classif_algorithm.py:119-131 | rounding consistent totals to cents changes nothing; the bonus total is their difference and is never negative; the applicable schemes are sorted, distinct and exactly the identifiers gathered |
| EcoschemeReport.ReportSummary | server/benchmark/vlm/ecoscheme_classif_algorithm.py:119-131 | the summary totals without and with the bonus equal the sums of the rows' Peninsular payments without and with the bonus, no Insular figure entering; rounding them to cents again changes nothing; the bonus total is never negative; the applicable schemes are sorted and listed once each |
| EcoschemeReport.TallyAllTotals | server/benchmark/vlm/ecoscheme_classif_algorithm.py:87-94 | the loop's running totals are the sums of the Peninsular payments of the rows it has produced |
| EcoschemeReport.ReportRows | server/benchmark/vlm/ecoscheme_classif_algorithm.py:64-129 | the rows follow the report order, one per group; the non-eligible row has no payments and lists the non-eligible group's parsed land uses; the row of a scheme key carries the identifier, name and subtype of its group's scheme, the group's land uses, its area to 4 places and both regions' payments of that area under that scheme; the applicable schemes are the identifiers of the rows with payments |
| EcoschemeReport.SchemeRows | server/benchmark/vlm/ecoscheme_classif_algorithm.py:101-110 | a scheme line that is its key's group's is listed as that group's scheme row: identifier, name, subtype, land uses, area to 4 places and both regions' payments |
| EcoschemeReport.CalculatePayment | server/benchmark/vlm/ecoscheme_classif_algorithm.py:15-147 | the whole estimate runs the steps in order (compile, parse, assign, group, report) and gives their composition |
| EcoschemeReport.EstimateGroupsAll | server/benchmark/vlm/ecoscheme_classif_algorithm.py:48-52 | inside the estimate grouping never fails, since every assigned land use is a parsed one |
| DecimalRounding.HalfUp | server/benchmark/vlm/ecoscheme_classif_algorithm.py:9-11 | `quantize(ROUND_HALF_UP)` gives a multiple of the unit that is within half a unit of the value, ties going away from zero, and keeps the sign |
| DecimalRounding.HalfUpError | server/benchmark/vlm/ecoscheme_classif_algorithm.py:9-11 | rounding never moves a value by more than half a unit of its last place |
| DecimalRounding.HalfUpFixed | server/benchmark/vlm/ecoscheme_classif_algorithm.py:130-131 | a value that is already quantized is left as it is |
| DecimalRounding.HalfUpMonotone | server/benchmark/vlm/ecoscheme_classif_algorithm.py:9-11 | rounding keeps the order of values |
| DecimalRounding.QuantizedSum | server/benchmark/vlm/ecoscheme_classif_algorithm.py:90-91 | sums and differences of values quantized to the same place stay quantized there |
| DecimalRounding.HalfUpTies | server/benchmark/vlm/ecoscheme_classif_algorithm.py:3 | ROUND_HALF_UP sends ties away from zero: 0.125 to 0.13, -0.125 to -0.13, 2.5 to 3 |
| DecimalRounding.HalfEven | server/services/sigpac_tools_v2/utils.py:222 | Python's `round` gives a multiple of the unit within half a unit, ties going to the even multiple |
| DecimalRounding.HalfEvenTies | server/services/sigpac_tools_v2/utils.py:222 | unlike ROUND_HALF_UP, `round` on exact values sends 2.5 to 2, 3.5 to 4 and 0.125 to 0.12 (ties a float holds exactly), and the exact real 0.00125 to 0.0012 |
| DecimalRounding.Fixed2RoundTrip | server/benchmark/vlm/ecoscheme_classif_algorithm.py:101 | the two-decimal text of a quantized amount reads back as that amount |
| Sorting.Sort | server/benchmark/vlm/ecoscheme_classif_algorithm.py:60 | `sorted` gives a sorted permutation of its input |
| Sorting.SortedUnique | server/benchmark/vlm/ecoscheme_classif_algorithm.py:60 | two sorted permutations of the same strings are equal, so the result of `sorted` is determined |
| Sorting.Dedup | server/benchmark/vlm/ecoscheme_classif_algorithm.py:44 | keeps exactly the strings of its input, each once |
| Sorting.SortedSet | server/benchmark/vlm/ecoscheme_classif_algorithm.py:129 | `sorted(set(s))` is strictly increasing and holds exactly the strings of `s` |
| SigpacUtils.NormalizeIsNormal | server/services/sigpac_tools_v2/utils.py:57 | a normalised reference has no spaces and no lower-case letters |
| SigpacUtils.NormalizeIdempotent | server/services/sigpac_tools_v2/utils.py:266 | normalising twice is normalising once, so the validator sees the reference the reader normalised |
| SigpacUtils.LetterIsUpper | server/services/sigpac_tools_v2/utils.py:268 | every control letter is an upper-case letter of the table |
| SigpacUtils.Control | server/services/sigpac_tools_v2/utils.py:275-299 | the control part computed from the first 18 characters is two characters long |
| SigpacUtils.ValidateNormal | server/services/sigpac_tools_v2/utils.py:270-271 | the validator refuses on length exactly when the normalised reference is not 20 characters |
| SigpacUtils.ValidateCadastralRegistry | server/services/sigpac_tools_v2/utils.py:242-313 | the three accumulation loops and the checks compute the validator's verdict |
| SigpacUtils.ControlPrefix | server/services/sigpac_tools_v2/utils.py:275-299 | the control letters depend on the first 18 characters only |
| SigpacUtils.ValidateIff | server/services/sigpac_tools_v2/utils.py:266-313 | a reference passes exactly when, normalised, it has 20 characters, character 5 is not a digit, and it ends with the control letters of its first 18 |
| SigpacUtils.CompletedIsValid | server/services/sigpac_tools_v2/utils.py:296-313 | a normal rural body of 18 characters followed by its control letters passes |
| SigpacUtils.UrbanRefused | server/services/sigpac_tools_v2/utils.py:301-306 | an urban body (a digit at position 5) is refused even with the right control letters |
| SigpacUtils.FindCommunity | server/services/sigpac_tools_v2/utils.py:27-30 | gives the first community in table order that lists the province, and nothing exactly when no community lists it |
| SigpacUtils.FieldsCover | server/services/sigpac_tools_v2/utils.py:61-67 | the seven fixed-width fields are contiguous and cover the whole 20-character reference |
| SigpacUtils.ReadFields | server/services/sigpac_tools_v2/utils.py:72-85 | a successful read has each numeric field equal to int() of its fixed slice, the section and the control as text, and a province whose community exists and is not 0; it fails only on a non-integer field or an unknown province |
| SigpacUtils.ReadOk | server/services/sigpac_tools_v2/utils.py:57-85 | a successful read means the reference passed the validator, has 20 characters normalised, and its fields are read from the normalised reference |
| SigpacUtils.ReadErrors | server/services/sigpac_tools_v2/utils.py:57-70 | the reader fails on length exactly when the normalised reference is not 20 characters, and fails with the validator's error whenever the validator refuses |
| SigpacUtils.ReadNormalized | server/services/sigpac_tools_v2/utils.py:57 | reading an already normalised reference gives the same result |
| SigpacUtils.TotalSurface | server/services/sigpac_tools_v2/utils.py:171-203 | the running total succeeds exactly when every enclosure has a surface; otherwise it fails at the first enclosure without one |
| SigpacUtils.Rounded | server/services/sigpac_tools_v2/utils.py:221-224 | one output entry per grouped land use, in order, its area rounded to 4 places by round() |
| SigpacUtils.GetMetadata | server/services/sigpac_tools_v2/utils.py:166-240 | the feature loop and the grouping loop compute the land-use metadata |
| SigpacUtils.UseSummaryKeys | server/services/sigpac_tools_v2/utils.py:214-218 | the grouping has one entry per distinct non-empty land use, in first-seen order |
| SigpacUtils.UseSummaryGet | server/services/sigpac_tools_v2/utils.py:214-218 | each entry holds the summed surface of exactly the enclosures with its land use; an empty or unseen land use has no entry |
| SigpacUtils.UseSummaryConservesArea | server/services/sigpac_tools_v2/utils.py:214-218 | the entries together hold the surface of every enclosure with a land use |
| SigpacUtils.TotalSurfaceSplit | server/services/sigpac_tools_v2/utils.py:203 | the total surface is the grouped surface plus the surface of enclosures whose land use is empty or missing |
| ParcelFinderUtils.ZFill | server/utils/parcel_finder_utils.py:113 | zfill pads to at least the requested width and never shortens a text |
| ParcelFinderUtils.Window | server/utils/parcel_finder_utils.py:116-119 | the window lists the n months from its start, one entry per month |
| ParcelFinderUtils.GenerateDateRange | server/utils/parcel_finder_utils.py:101-121 | the month-stepping loop computes the date range, failing where datetime would |
| ParcelFinderUtils.EntryNext | server/utils/parcel_finder_utils.py:119 | one step is one calendar month, the year moving on after December |
| ParcelFinderUtils.WindowShape | server/utils/parcel_finder_utils.py:114-119 | the window of n + 1 months ending at a month starts n months earlier, ends at that month, and each entry is the month after the one before |
| ParcelFinderUtils.DateRangeWindow | server/utils/parcel_finder_utils.py:101-121 | for a non-negative range, a successful result is exactly the range + 1 months ending with the given year and month |
| ParcelFinderUtils.NegativeRange | server/utils/parcel_finder_utils.py:114-117 | a negative range starts after the given month and yields no month |
| ParcelFinderUtils.DateRangeParses | server/utils/parcel_finder_utils.py:113 | for a four-digit year, a one- or two-digit month is refused exactly when it is not 1 to 12 |
| ParcelFinderUtils.LeadingZero | server/utils/parcel_finder_utils.py:113 | a month given as "2" or as "02" gives the same window |
| ParcelFinderUtils.ZFillDigits | server/utils/parcel_finder_utils.py:113 | zfill of a one- or two-digit month is two digits of the same value |
| ParcelFinderUtils.GroupBands | server/utils/parcel_finder_utils.py:244-255 | the grouping loop computes the per-month grouping, failing on a name with too few parts |
| ParcelFinderUtils.GroupByMonthHas | server/utils/parcel_finder_utils.py:244-255 | a month has a group exactly when some file carries it |
| ParcelFinderUtils.GroupByMonthLast | server/utils/parcel_finder_utils.py:244-255 | in a month's group each band holds the last file, in list order, with that month and band |
| ParcelFinderUtils.RgbTifs | server/utils/parcel_finder_utils.py:257-282 | exactly the complete groups give a composite, each named after its year and month |
| ParcelFinderUtils.ComposeRgb | server/utils/parcel_finder_utils.py:257-282 | the loop over the groups writes one composite per complete group, in group order |
| SrBenchmark.ExtractTimestampSpec | server/benchmark/sr/utils.py:43-46 | a timestamp is found exactly when the name starts with digits, a dot, digits and "_", and it is the number that text denotes |
| SrBenchmark.TimestampRoundTrip | server/benchmark/sr/utils.py:43-46 | a name written as "<whole>.<frac>_<rest>" reads back as whole.frac |
| SrBenchmark.Closest | server/benchmark/sr/utils.py:53-62 | the kept index, when there is one, is a file that scores |
| SrBenchmark.FindClosestSr | server/benchmark/sr/utils.py:48-63 | the scan over the files returns the file the closest-index specification picks |
| SrBenchmark.ClosestSpec | server/benchmark/sr/utils.py:53-62 | nothing is kept exactly when no file scores; otherwise the kept file's difference is the least of all scoring files and strictly less than every scoring file before it |
| SrBenchmark.ClosestStep | server/benchmark/sr/utils.py:60-62 | a file replaces the one kept so far exactly when it scores and its difference is strictly smaller |
| Sen2srUtils.Reorder | server/services/sen2sr/utils.py:24-27 | fewer than four bands raise IndexError; otherwise the result is the four bands in the order 3, 2, 1, 0 |
| Sen2srUtils.ReorderInvolution | server/services/sen2sr/utils.py:19-28 | both arrays are reordered alike, and reordering the result again gives back the first four bands |
| Sen2srUtils.ZoneSpec | server/services/sen2sr/utils.py:192-200 | the zone is the six-degree band from 180 W that contains the longitude, 1 to 60 for a longitude in [-180, 180); the code is 32600 plus the zone on or north of the equator and 32700 plus the zone south of it |
| Sen2srUtils.EpsgText | server/services/sen2sr/utils.py:197-200 | the text is "EPSG:" followed by the decimal digits of the code |
| Sen2srUtils.BoundsInclusive | server/services/sen2sr/utils.py:203-206 | the bounding box is closed: its four corners are inside and a point beyond any side is outside |
| Sen2srUtils.CloudFraction | server/services/sen2sr/utils.py:141-143 | a cloud fraction is a share between 0 and 1; an empty slice gives none |
| Sen2srUtils.Valid | server/services/sen2sr/utils.py:147-148 | the valid indices are time indices of the series |
| Sen2srUtils.LeastCloudy | server/services/sen2sr/utils.py:149-151 | the fallback, when there is one, is a slice over the threshold whose fraction is below 1 |
| Sen2srUtils.GetCloudlessTimeIndices | server/services/sen2sr/utils.py:126-157 | the loop over the time dimension computes the valid indices, with the fallback when there are none |
| Sen2srUtils.ValidSpec | server/services/sen2sr/utils.py:147-148 | the valid indices are exactly the slices at or under the threshold, in ascending order |
| Sen2srUtils.LeastCloudySpec | server/services/sen2sr/utils.py:149-155 | when no slice is at or under the threshold, the fallback is the first slice with the least fraction, and there is none exactly when every slice is fully cloudy |
| Sen2srUtils.CloudlessSpec | server/services/sen2sr/utils.py:153-157 | the result is the valid indices when there are any; otherwise it holds at most one index, and none exactly when every slice is fully cloudy |
| AppConfig.Config.constructor | server/config/config.py:13 | the reflectance scale starts at 400 |
| AppConfig.Config.SetReflectanceScale | server/config/config.py:15-18 | the configuration then holds the given scale |
| SrUtils.StackChannels | server/sr/utils.py:47-52 | channels 0 to 3 of the stacked image are bands 04, 03, 02 and 08, and every pixel has four channels |
| SrUtils.FromTorch | server/sr/utils.py:59-72 | scaling back always gives a 16-bit value (clipped to 0..65535) |
| SrUtils.TorchRoundTrip | server/sr/utils.py:54-72 | in exact arithmetic every 16-bit value survives the trip to the model's range and back, and values outside are clipped to the nearest end (float32 rounding is covered by Float32TripBound) |
| SrUtils.ToU16 | server/sr/utils.py:65-69 | the clipped value is in 0..65535 and, inside that range, is the value truncated |
| SrUtils.Float32TripBound | server/sr/utils.py:54-72 | with the float32 quotient and product each within float32's unit roundoff of the exact result, at either scale the program uses, a 16-bit pixel comes back as itself or one less, and 0 as 0 |
| SrUtils.Float32TripLosesOne | server/sr/utils.py:54-72 | the loss happens: 53 at scale 400 with the quotient one unit roundoff low comes back as 52 |
| SrUtils.SetReflectanceScale | server/services/sr4s/sr/utils.py:79-83 | the configuration then holds 400 for the Andalusia tiles and 60 otherwise |
| SrUtils.ScaleFor | server/services/sr4s/sr/utils.py:79-83 | the scale chosen is always positive |
| SrUtils.ScaleAfterSetting | server/services/sr4s/sr/utils.py:44-63 | after setting the scale, a pixel goes to the model as v / 400 or v / 60 and, in exact arithmetic, comes back as the same pixel |
| SrUtils.MaxHeight | server/sr/utils.py:76 | the grid's tile height is the largest image height: no image is taller, and some image has it |
| SrUtils.MaxWidth | server/sr/utils.py:77 | the grid's tile width is the largest image width: no image is wider, and some image has it |
| SrUtils.PadTo | server/sr/utils.py:78 | padding gives an image of exactly the tile height and width |
| SrUtils.Paste | server/sr/utils.py:85 | pasting writes the image into its rectangle and leaves every other pixel as it was |
| SrUtils.PaintTiles | server/sr/utils.py:82-85 | the paste loop leaves every pixel as painting the tiles in order over white gives |
| SrUtils.MakeGrid | server/sr/utils.py:74-86 | `ncols` and `pad` are parameters (the defaults, 3 and 4 here and 2 and 4 in server/services/sr4s/sr/utils.py:65, are the caller's); an empty image list or no columns gives no grid; otherwise the grid has (h+pad)*rows+pad by (w+pad)*ncols+pad pixels, each the pixel of the one tile covering it or white |
| SrUtils.PaintedSpec | server/sr/utils.py:82-85 | painting the tiles one after another leaves at each position the pixel of the one tile that covers it, or white |
| SrUtils.TileInside | server/sr/utils.py:80-84 | every tile, with its padding, lies inside the grid |
| SrUtils.TilePosition | server/sr/utils.py:83-84 | each pixel of a tile is covered by that tile and no other |
| SrUtils.TileOfInverse | server/sr/utils.py:83-84 | a covered position is its tile's top-left corner plus the pixel's offset in the tile |
| SrUtils.TilesDisjoint | server/sr/utils.py:82-85 | distinct tiles never share a pixel, so no paste overwrites another tile |
| SrBandGroups.FirstContained | server/sr/get_sr_image.py:48 | the first candidate, in order, that occurs in the name, and none exactly when no candidate occurs |
| SrBandGroups.BandOf | server/sr/get_sr_image.py:48 | a file has a band exactly when its name contains one of B02, B03, B04, B08, and the band is one of them that occurs |
| SrBandGroups.FileKeys | server/sr/get_sr_image.py:46-52 | one key per file, each the file's own |
| SrBandGroups.GroupBandFiles | server/sr/get_sr_image.py:45-55 | the grouping loop computes the file-by-file grouping, skipping files without a band |
| SrBandGroups.GroupErr | server/services/sr4s/sr/get_sr_image.py:102-104 | grouping fails exactly when some file's key does, and then with the first such file's error |
| SrBandGroups.GroupHas | server/sr/get_sr_image.py:53-55 | a group exists exactly for the names some file's key gives |
| SrBandGroups.LastIndex | server/sr/get_sr_image.py:55 | the index found is the last file with that group and band, and none exactly when no file has them |
| SrBandGroups.GroupLast | server/sr/get_sr_image.py:53-55 | each band of a group holds the last file with that group and band |
| SrBandGroups.BandFile | server/sr/get_sr_image.py:47-51 | a band file "<dir>/<stem><band>.tif" has that base name, that name without extension, and that band |
| SrBandGroups.SrKeyOf | server/sr/get_sr_image.py:52 | the first pipeline files "<stem><band>.tif" under group stem |
| SrBandGroups.Sr4sKeyOf | server/services/sr4s/sr/get_sr_image.py:102-104 | the SR4S pipeline files "<a>_<b>-<band>.tif" under group "SR_<a>_<b>" |
| SrBandGroups.Sr4sIndexError | server/services/sr4s/sr/get_sr_image.py:103-104 | the SR4S pipeline fails on a band file (IndexError) exactly when the name before "-<band>" has no '_' |
| SrBandGroups.PngsSpec | server/sr/get_sr_image.py:58-90 | every PNG written comes from a complete group, and every complete group gives its PNG |
| SrBandGroups.ProcessGroups | server/services/sr4s/sr/get_sr_image.py:111-145 | the loop writes one PNG per complete group, in group order, and the returned path follows the last PNG written |
| SrBandGroups.LastComplete | server/services/sr4s/sr/get_sr_image.py:111-115 | the index found is the last complete group, and none exactly when no group is complete |
| SrBandGroups.LastPng | server/services/sr4s/sr/get_sr_image.py:143-171 | the SR4S pipeline returns the PNG of the last complete group, and nothing when no group is complete |
| SrBandGroups.ProcessDirectory | server/services/sr4s/sr/get_sr_image.py:91-171 | a directory's result is the grouping's error, or the last PNG written over the complete groups |
| VlmReply.BreakFrom | server/benchmark/vlm/get_vlm_metrics.py:136 | the first line break at or after a position, with no break before it |
| VlmReply.SplitLines | server/benchmark/vlm/get_vlm_metrics.py:136 | no line of the result holds a line break |
| VlmReply.SplitLinesRejoin | server/benchmark/vlm/get_vlm_metrics.py:136 | the lines put back together with the breaks they were split at ("\r\n" or a single break character after each line but the last, and at most one after the last) give back the reply exactly |
| VlmReply.SplitLinesNewlines | server/benchmark/vlm/get_vlm_metrics.py:136 | on text whose only breaks are '\n', the lines are the pieces between '\n's, without the empty piece after a final '\n' |
| VlmReply.OpenAt | server/benchmark/vlm/get_vlm_metrics.py:143 | the opening index remembered is the last line seen that is exactly "{", and none when no line seen is |
| VlmReply.CloseFrom | server/benchmark/vlm/get_vlm_metrics.py:144 | the closing index remembered is one past the last line seen from the back that is exactly "}", and none when no line seen is |
| VlmReply.Stop | server/benchmark/vlm/get_vlm_metrics.py:142-147 | the scan stops at the first step where both braces have been seen, or when the back index reaches 0 |
| VlmReply.ScanBraces | server/benchmark/vlm/get_vlm_metrics.py:139-147 | the two-ended loop ends with the indices the scan specification gives |
| VlmReply.ScanStops | server/benchmark/vlm/get_vlm_metrics.py:142 | a scan that stops at a step has found the indices of that step |
| VlmReply.ExtractJsonFromReply | server/benchmark/vlm/get_vlm_metrics.py:134-155 | the indices are the scan's, the cleaned text is the kept lines joined, without fences and stripped, and the warning is raised exactly when that text is empty or lacks "{" |
| VlmReply.ShortReply | server/benchmark/vlm/get_vlm_metrics.py:139-142 | with fewer than two lines the loop never runs and both indices stay unset |
| VlmReply.BoundsSpec | server/benchmark/vlm/get_vlm_metrics.py:139-147 | a kept start is a line that is exactly "{", a kept end is one past a line that is exactly "}", and the scan takes at most one step fewer than there are lines |
| VlmReply.BareReply | server/benchmark/vlm/get_vlm_metrics.py:136-151 | a reply that starts with "{" and ends with "}" is kept whole |
| VlmReply.FencedReply | server/benchmark/vlm/get_vlm_metrics.py:136-151 | a reply fenced by an opening line and a closing line loses only the fence lines |
| VlmReply.BracesReversed | server/benchmark/vlm/get_vlm_metrics.py:139-151 | a "}" line before the "{" line leaves nothing between them |
| VlmReply.NothingKeptWarns | server/benchmark/vlm/get_vlm_metrics.py:151-155 | when the scan keeps no line the text is empty and the warning is logged |
| VlmReply.CleanedHasNoFence | server/benchmark/vlm/get_vlm_metrics.py:151 | no code fence survives the clean-up |
| EcoschemeRules.AddCandidatesContents | server/benchmark/vlm/ecoscheme_classif_algorithm.py:177-187 | after the inner loop, each code's list is its old list followed by the scheme once for every time the record lists that code |
| EcoschemeRules.AddCandidatesShape | server/benchmark/vlm/ecoscheme_classif_algorithm.py:177-187 | the inner loop keeps the codes distinct and every candidate list non-empty |
| EcoschemeSelection.SelectFromAt | server/benchmark/vlm/ecoscheme_classif_algorithm.py:228-254 | one pass of the inner loop: a missing region is skipped, an incomparable payment fails, and only a strictly greater payment replaces the best |
| EcoschemeAssignment.AssignAllFailsEarly | server/benchmark/vlm/ecoscheme_classif_algorithm.py:216-258 | once a decision fails, the land uses after it change nothing |
| EcoschemeAssignment.AssignAllLast | server/benchmark/vlm/ecoscheme_classif_algorithm.py:216-258 | the last land use's decision, when it has one, is written over the assignments of the ones before it |
| EcoschemeGrouping.GroupAllFailsEarly | server/benchmark/vlm/ecoscheme_classif_algorithm.py:265-292 | once a lookup fails, the assignments after it change nothing |
| EcoschemeGrouping.GroupAllLast | server/benchmark/vlm/ecoscheme_classif_algorithm.py:265-292 | the last assignment adds its area and code to the group of its key, opening it if need be |
| EcoschemeReport.RoundedGap | server/benchmark/vlm/ecoscheme_classif_algorithm.py:325-327 | adding a non-negative amount before rounding to cents raises the result by that amount to within a cent, never lowering it |
| EcoschemeReport.PeninsularPayments | server/benchmark/vlm/ecoscheme_classif_algorithm.py:83-88 | the Peninsular figures of a scheme row are the payments at its applied rate and tier |
| EcoschemeReport.TallyAllFailsEarly | server/benchmark/vlm/ecoscheme_classif_algorithm.py:64-113 | once a row fails, the groups after it change nothing |
| EcoschemeReport.TallyStepOk | server/benchmark/vlm/ecoscheme_classif_algorithm.py:87-94 | one group keeps the totals in whole cents, the total with the bonus at least the total without it, and the pluriannual area non-negative |
| EcoschemeReport.TallyStepLine | server/benchmark/vlm/ecoscheme_classif_algorithm.py:65-113 | one group adds exactly the line of its key: the "Non-Eligible" line is its group's, and a scheme key's line is its group with the scheme heading it and both regions' payments of that group |
| EcoschemeReport.TallyAllLast | server/benchmark/vlm/ecoscheme_classif_algorithm.py:64-113 | the last key adds its line to the tally of the keys before it: the non-eligible group's line for "Non-Eligible", its group's scheme line with that group's payments otherwise |
| SigpacUtils.NormalizeNormal | server/services/sigpac_tools_v2/utils.py:57 | normalisation leaves a reference that is already normal unchanged |
| SigpacUtils.TotalSurfaceFailsEarly | server/services/sigpac_tools_v2/utils.py:171-203 | once an enclosure without a surface fails the sum, the enclosures after it change nothing |
| SigpacUtils.SummaryAdd | server/services/sigpac_tools_v2/utils.py:218 | `summary[u] += x` adds x to the summary's total area |
| SigpacUtils.UseAreaUnseen | server/services/sigpac_tools_v2/utils.py:216-218 | a non-empty land use that no enclosure has contributes no area |
| ParcelFinderUtils.DateParsed | server/utils/parcel_finder_utils.py:113 | a successful strptime means four year digits and a month of 1 to 12, and gives their month index |
| ParcelFinderUtils.WindowSteps | server/utils/parcel_finder_utils.py:117-119 | each month of a window is the calendar month after the one before it |
| ParcelFinderUtils.GroupByMonthStep | server/utils/parcel_finder_utils.py:245-255 | one more file either fails on a name with too few parts or writes that file under its month and band |
| ParcelFinderUtils.GroupByMonthFailsEarly | server/utils/parcel_finder_utils.py:245-255 | once a name with too few parts fails, the files after it change nothing |
| ParcelFinderUtils.LastFile | server/utils/parcel_finder_utils.py:255 | the file found is one of the files, carrying that month and band |
| SrBandGroups.GroupStep | server/sr/get_sr_image.py:46-55 | one more file fails with its key's error, is skipped when it has no band, or is written under its group and band |
| SrBandGroups.GroupFailsEarly | server/services/sr4s/sr/get_sr_image.py:97-108 | once a file fails, the files after it change nothing |
| SrBandGroups.SrNameOf | server/sr/get_sr_image.py:52 | `rsplit(band, 1)[0]` of "<stem><band>" is stem |
| SrBandGroups.Sr4sNameOf | server/services/sr4s/sr/get_sr_image.py:103-104 | the SR4S pipeline names the group of "<a>_<b>-<band>" as "SR_<a>_<b>" |
| SrBandGroups.BandOfName | server/sr/get_sr_image.py:48 | the band of "<stem><band>.tif" is that band when stem has no 'B' |
| SrBenchmark.Scores | server/benchmark/sr/utils.py:54-61 | one score per file, each the file's own |
| Sen2srUtils.Fractions | server/services/sen2sr/utils.py:138-143 | one cloud fraction per time slice, each the slice's own |
| Sen2srUtils.LeastStep | server/services/sen2sr/utils.py:149-151 | one more slice replaces the fallback exactly when it is over the threshold and its fraction is below the least seen so far (1 at the start) |
| Text.JoinSplit | server/benchmark/vlm/get_vlm_metrics.py:136-151 | joining the pieces of a split with the same separator gives the text back |
| Text.BeforeFirst | server/services/sr4s/sr/get_sr_image.py:103 | `s.split(sep, 1)[0]` is the prefix before the first occurrence, holding none |
| Text.SplitSecond | server/benchmark/vlm/ecoscheme_classif_algorithm.py:164 | `s.split(sep)[1]` is the text between the first and the second occurrence of sep |
| Text.SplitLastIsAfterLast | server/benchmark/vlm/ecoscheme_classif_algorithm.py:166 | the last piece of `s.split(c)` is the text after the last c, or all of s without one |
| Text.BeforeLast | server/sr/get_sr_image.py:52 | `s.rsplit(sep, 1)[0]` is the prefix before the last occurrence, or the whole text when there is none |
| Text.Basename | server/sr/get_sr_image.py:47 | the base name is a suffix of the path with no '/' |
| Text.ParseIntToString | server/services/sigpac_tools_v2/utils.py:78-83 | `int(str(i)) == i` |
| Text.RemoveFenceLeavesNone | server/benchmark/vlm/get_vlm_metrics.py:151 | removing every "```" leaves none behind |
| Assoc.GetPut | server/benchmark/vlm/ecoscheme_classif_algorithm.py:44 | after `d[k] = v`, `d[k]` is v and every other key reads as before |
| Assoc.KeysPut | server/benchmark/vlm/ecoscheme_classif_algorithm.py:44 | `d[k] = v` appends k to the keys exactly when it is new |
| Assoc.PutPut | server/sr/get_sr_image.py:53-55 | assigning a key twice leaves what the second assignment alone would |
| Assoc.CreateThenPutIn | server/sr/get_sr_image.py:53-55 | creating an empty inner dictionary when the key is new, then assigning into it, is the nested assignment |
| Assoc.GetPutIn | server/sr/get_sr_image.py:55 | after the nested assignment, that pair of keys reads the new value and every other pair reads as before |

## Left out

- Parsing the parcel text with regular expressions (server/benchmark/vlm/ecoscheme_classif_algorithm.py:34-44) and decoding the rules JSON (24-28): the model takes the parsed `(code, area)` blocks and the rule records as inputs.
- Irrigation and slope of a land use: the source matches them and then drops them (ecoscheme_classif_algorithm.py:41), so no subtype compatibility filter exists to model.
- The example run at import time in ecoscheme_classif_algorithm.py (331-414): it reads and writes files and prints.
- The clarification sentences of the summary (ecoscheme_classif_algorithm.py:122-126): the sentences are not produced, but the figures they quote, the bonus total and the pluriannual area, are summary fields of the model.
- The `float(...)` conversions of the report's output values: a float is taken as the exact real it was computed from.
- EcoschemeReport.TallyAllOk and EcoschemeReport.TallyStepOk: the running totals add `Decimal` of the payment floats (ecoscheme_classif_algorithm.py:87-88, floats made at 324-328). Those binary expansions are generally not whole cents, so "whole cents" holds of the model's totals, not of the program's intermediate values.
- The surfaces `get_metadata` adds up and rounds with `round(area, 4)` are Python floats (server/services/sigpac_tools_v2/utils.py:214-222); the model takes them as exact reals, so a decimal tie such as 0.00125, which no float holds exactly, can round differently in the program.
- The rule records are taken as complete and well typed: the `KeyError` of a record without 'Ecoscheme', 'Land_Uses', 'Rates', 'Threshold_ha' or 'Pluriannuality' (ecoscheme_classif_algorithm.py:157-172), of a tiered rate without 'Tier_1' or 'Tier_2' (201-202), and the `InvalidOperation` of `Decimal(str(...))` on a non-numeric tier or flat value (201-202, 207) cannot arise, because `RawRule` and `RawRate` carry those fields with numeric tiers.
- Logging, `print` and warnings in every file: they change no value.
- EcoschemeSelection.Select: a land use whose every offer scores -1 or less, or that has no rate in either region, is left with no assignment, as the source's starting best of -1 makes it (line 223); it is not turned into a non-eligible entry.
- EcoschemeRules.ParseLabel: a label without " - " is an `IndexError`, as in the source (line 163), and not a declaration of non-eligibility.
- The text-rate `TypeError` of a pluriannual scheme (ecoscheme_classif_algorithm.py:244) and the missing-region `KeyError` of the report (83-84) are modelled as `Err` results, not excluded by preconditions.
- The group members keep their insertion order; only the report sorts the codes (line 99). A repeated code keeps its first position and its last area, while the parcel total counts every block.
- SIGPAC network access: `get_parcel_metadata_and_geometry`, the geometry union and the `query` and `parcelInfo` dictionaries of `get_metadata`; the model takes the list of enclosure records.
- The tables `PROVINCES_BY_COMMUNITY` and `SPAIN_MAINLAND`: they are defined outside the modelled files, so they are parameters.
- `str.upper`, `str.isdigit` and `int(...)` are modelled on ASCII only: Unicode digits, case mappings beyond ASCII and the underscores `int` accepts are not. The same holds for the regular expression `\d` and `float()` in `extract_timestamp` (SrBenchmark.ExtractTimestampSpec, server/benchmark/sr/utils.py:43-46) and for the digits `strptime` accepts (ParcelFinderUtils.Strptime, server/utils/parcel_finder_utils.py:113); Python accepts Unicode digits in both.
- Satellite download, merging, reprojection, cropping and raster writes in server/utils/parcel_finder_utils.py (`extract_polygons_2d`, `get_tiles_polygons`, `download_*`, `merge_tifs`, `reproject_tiles`, `handle_nodata`, `normalize`, `gamma_correction`, `save_raster`, `cut_from_geometry`, `get_geojson_data`) and the image work of `rgb` after the grouping: raster I/O and threads.
- The directory listing (`glob.glob`) in both `process_directory` functions: its order is whatever the file system gives, so the model takes the list of files as input.
- Image numerics on floating-point arrays: `percentile_stretch`, `brighten`, `apply_gamma`, `prepare_rgb`, `save_png`, the `save_*` writers, `make_comparison_grid`, `detect_and_normalize`, `resize_image`, `spectral_angle_mapper`, `ergas` and `copy_file_to_dir`.
- Super-resolution model inference, tensor devices and data types in both `get_sr_image.py` files: only the grouping loops and the choice of output path are modelled.
- SrBandGroups.ProcessDirectory: the result path is modelled for both pipelines, but only the SR4S `process_directory` returns it; the other writes its PNG files and returns nothing (server/sr/get_sr_image.py:42-89).
- SrUtils.StackBgrn: NumPy broadcasting and `dtype` handling are not modelled; the four bands must already share one shape.
- SrUtils.TorchRoundTrip: the division and multiplication are exact here. The program does both in float32, and the rounding before the truncating cast can lose one unit (53 at scale 400 can come back as 52). Float32TripBound and Float32TripLosesOne state that bound and that it is reached.
- SrUtils.ScaleAfterSetting: `back == v` holds in exact arithmetic only. In float32 the pixel can come back one less (63 at scale 60 can give 62), within the bound of Float32TripBound.
- SrUtils.MakeGrid: the pixel type is an abstract RGB triple and `pad` is a natural number, so a negative pad is not modelled.
- A NaN cloud fraction (an empty time slice) is modelled as `None`, which never passes a threshold test, as NaN comparisons are false.
- In `extract_json_from_reply` the cleaned JSON is written to a file and read back (server/benchmark/vlm/get_vlm_metrics.py:157-160 and after): only the scan and the cleanup are modelled.
- The rest of get_vlm_metrics.py (data frames, model calls, file output) and the other LLM, chat and endpoint modules: I/O and calls into remote services.
- `n_random_dates_between`: it depends on randomness.
- server/utils/parcel_finder_utils1.py is not part of this model: it is an older copy of parcel_finder_utils.py whose logic is I/O.
