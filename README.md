# LLM co-authorship fairness visualizer — verified model of its core

The dashboard (`streamlit_app.py`) compares two lists of co-authors for each
author. One list comes from the Google Scholar search. The other is the list
a language model names. For each author it computes the share of female
co-authors and the share of white co-authors in both lists. A "diff ratio"
column holds the language model's share minus the Scholar share. The
dashboard draws a histogram of that column, and its bin count comes from the
column's spread and a bin width set on a slider.

This project models that computation and the string handling around the
classifier and geocoder calls. It proves what each piece computes.

- `wrappers.dfy`, module `Wrappers`. Holds `Option` and `Result`. `Result`
  carries the two Python exceptions the lookups can raise: `IndexError` for
  a blank name and `KeyError` for an unknown race code.
- `text.dfy`, module `Text`. Python's `str.split(sep)`, `str.split()` and
  `str.strip()`, using the whitespace set of CPython's `str.isspace`.
  `split(sep)` is proved against `Join`, which is `sep.join`. `split()` is
  proved against `Layout`, which places words between whitespace gaps.
- `lookup.dfy`, module `Lookup`. Holds `ethnicityMap`, the first and last
  token of a name, `predictEthnicity`, the first-token gender lookup, and
  `affiliation2country`. The two classifiers and the geocoder are function
  parameters. Nothing is assumed about what they return.
- `arith.dfy`, module `RealArith`. Small facts about dividing and
  multiplying exact reals by a positive width.
- `diff_ratio.dfy`, module `DiffRatio`. Holds:
  - the table rows;
  - `list.count`, the ratio and the per-row diff value;
  - the loop that resets the column and fills it in place, as a method on
    arrays;
  - `max`/`min`, Python's `int()` and the histogram bin count;
  - the two `draw…DiffRatio` functions without their drawing.

Python floats are modelled as exact reals. `int()` is modelled explicitly as
truncation toward zero.

The ethnicity column counts lowercase `"white"`, but `ethnicityMap` only
produces capitalised labels. The model keeps the code as written.
`MappedEthnicityColumnIsFlat` proves the consequence: on a table whose
ethnicities all come from the map, the ethnicity diff column is all zero and
its histogram has exactly one bin.

## Model

| member | source | states |
|---|---|---|
| Lookup.EthnicityLabel | streamlit_app.py:21-26 | The map is defined on exactly the four race codes `asian`, `hispanic`, `nh_black` and `nh_white`. Each yields one of the four display labels. Any other code is a `KeyError` carrying that code. |
| Lookup.EthnicityLabelInjective | streamlit_app.py:21-26 | Different race codes get different labels. |
| Lookup.SplitName | streamlit_app.py:29-31 | A name fails with `IndexError` exactly when it is blank (empty or only whitespace). Otherwise the first and last names are non-empty and contain no whitespace. The first name is the longest whitespace-free run starting at the first non-whitespace character. |
| Lookup.SplitNameOfLayout | streamlit_app.py:29-31 | For any name made of words separated by whitespace gaps, the first name is the first word and the last name is the last word. Gaps may hold runs and tabs, and there may be whitespace at either end. The two coincide for a one-word name. `Text.LayoutOfTokens` shows every name has this form. |
| Lookup.PredictEthnicity | streamlit_app.py:28-37 | A blank name is an `IndexError`, raised before the classifier runs. Otherwise the result is `ethnicityMap` looked up at the classifier's answer for (last, first). That is a label for the four known race codes and a `KeyError` for that answer otherwise. |
| Lookup.GuessGender | streamlit_app.py:135 | The gender detector sees only the first whitespace token of the name. A blank name is an `IndexError`. |
| Lookup.LastField | streamlit_app.py:40 | The result contains no comma and has no whitespace at either end. It occurs in the input. With no comma in the input it is the stripped input. |
| Lookup.LastFieldOfJoin | streamlit_app.py:40 | For comma-joined fields that contain no comma, the result is the last field stripped, whatever the earlier fields are. |
| Lookup.AffiliationToCountry | streamlit_app.py:39-46 | The result is `None` exactly when the geocoder finds nothing for the institution. The institution is the last field of the affiliation. Otherwise the result is the last field of the address the geocoder returned: comma-free, stripped, and a piece of that address. |
| Text.Split | streamlit_app.py:40 | `str.split(sep)` always returns at least one part. |
| Text.SplitPartsOmitSep | streamlit_app.py:40 | No part of a split contains the separator. |
| Text.SplitWithoutSep | streamlit_app.py:40 | A string without the separator splits into itself alone. A string with the separator splits into more than one part. |
| Text.JoinSplit | streamlit_app.py:40 | Joining the parts of a split with the separator gives back the string. |
| Text.SplitJoin | streamlit_app.py:40 | Splitting a join of one or more separator-free parts gives back the parts. |
| Text.LastSplit | streamlit_app.py:43-44 | `split(sep)[-1]` contains no separator. It is a suffix of the string, either the whole string or preceded by the separator. |
| Text.LastSplitIsSuffix | streamlit_app.py:43-44 | The last part of a split is the text after the last separator. |
| Text.Strip | streamlit_app.py:40 | `strip()` returns a string with no whitespace at either end. It sits in the input at the first non-whitespace character, with only whitespace before and after it. An already stripped string is returned unchanged. |
| Text.Tokens | streamlit_app.py:29 | Every token of `str.split()` is non-empty and whitespace-free. There are no tokens exactly when the string is blank. |
| Text.TokensOfLayout | streamlit_app.py:29 | Splitting on whitespace any layout of non-empty, whitespace-free words gives back the words. Runs of whitespace act as one separator, and whitespace at either end is dropped. |
| Text.LayoutOfTokens | streamlit_app.py:29 | Every string is a layout of its own tokens with whitespace gaps. With `TokensOfLayout`, the tokens of a string are exactly the words it is laid out from. |
| Text.FirstToken | streamlit_app.py:135 | The first token of a non-blank string is the longest whitespace-free run starting at its first non-whitespace character. |
| DiffRatio.Count | streamlit_app.py:53 | `list.count` never exceeds the list's length. |
| DiffRatio.CountIsMultiplicity | streamlit_app.py:53 | The count is the target's multiplicity in the list. |
| DiffRatio.CountZero | streamlit_app.py:53 | The count is 0 exactly when the target does not occur. |
| DiffRatio.CountAll | streamlit_app.py:53 | The count equals the length exactly when every element is the target. |
| DiffRatio.CountIgnoresOtherLabels | streamlit_app.py:56 | Only exact matches count. Appending any other label, such as `"mostly_female"`, leaves the count unchanged. |
| DiffRatio.Ratio | streamlit_app.py:53 | The ratio lies in [0, 1] and is 0 for an empty list. |
| DiffRatio.RatioIsShare | streamlit_app.py:56 | For a non-empty list the ratio is the target's multiplicity divided by the length. |
| DiffRatio.RatioZero | streamlit_app.py:77 | The ratio is 0 exactly when the target does not occur. |
| DiffRatio.RatioOne | streamlit_app.py:80 | The ratio is 1 exactly when the list is non-empty and made only of the target. |
| DiffRatio.GenderRatioExample | streamlit_app.py:53 | `["female", "mostly_female", "andy", "male"]` has a female ratio of 0.25. |
| DiffRatio.DiffValue | streamlit_app.py:58 | A row's diff value lies in [-1, 1]. |
| DiffRatio.DiffValueZero | streamlit_app.py:53-58 | A row is 0 when neither list holds the target, in particular when both lists are empty. |
| DiffRatio.DiffColumn | streamlit_app.py:51-58 | The column has one value per row, each in [-1, 1]. |
| DiffRatio.WriteDiffRatio | streamlit_app.py:49-58 | After the reset to 0 and the row loop, the column holds exactly each row's diff value. The rows are unchanged. |
| DiffRatio.WriteDiffRatioTwice | streamlit_app.py:73-82 | Computing the column twice over the same rows gives identical values. |
| DiffRatio.MaxOf | streamlit_app.py:60 | `max()` is an element of the column and bounds every element from above. |
| DiffRatio.MinOf | streamlit_app.py:60 | `min()` is an element of the column and bounds every element from below. |
| DiffRatio.TruncToInt | streamlit_app.py:61 | `int()` truncates toward zero. For a non-negative value that is the floor. For a negative value it is the ceiling. |
| DiffRatio.BinsForRange | streamlit_app.py:61-62 | `max(1, int(range / width))` is at least 1. It is 1 for a range below one width. Otherwise it is the quotient rounded down. |
| DiffRatio.NumBins | streamlit_app.py:60-62 | The bin count is at least 1. It is exactly 1 when max − min is below the bin width. Otherwise it is (max − min) / width rounded down. |
| DiffRatio.NumBinsCoverSpan | streamlit_app.py:84-86 | In the many-bin case, `num_bins * width <= max − min < (num_bins + 1) * width`. |
| DiffRatio.ConstantColumnHasOneBin | streamlit_app.py:60-62 | A column whose values are all equal gets one bin. |
| DiffRatio.MappedEthnicityDiffIsZero | streamlit_app.py:77-82 | When every ethnicity label of a row comes from `ethnicityMap`, both lowercase-`"white"` ratios are 0, and so is the row's ethnicity diff. |
| DiffRatio.MappedEthnicityColumnIsFlat | streamlit_app.py:84-86 | On such a table the ethnicity column is all zero and its histogram has one bin, for any bin width. |
| DiffRatio.DrawGenderDiffRatio | streamlit_app.py:48-62 | Fills the gender column with the rows' diff values and returns the bin count of that column. |
| DiffRatio.DrawEthnicityDiffRatio | streamlit_app.py:72-86 | Fills the ethnicity column with the rows' diff values and returns the bin count of that column. |

## Left out

- The Streamlit interface (text input, buttons, list display, sidebar, `st.write`, session state) is left out: it is user-interface plumbing. The bin width is a parameter with `0 < binWidth`, which the slider guarantees. The non-empty table the draw functions need is guaranteed by the guard before they are called.
- The charts (seaborn histogram with KDE, matplotlib, mpld3 HTML) are left out: they are display code over floating point. The model stops at the column and the bin count handed to the histogram.
- The Scholar search, the Nominatim geocoder and `email2institution_country` are network services. The geocoder is a function parameter of `AffiliationToCountry`. The Scholar search and `email2institution_country` are not part of this model.
- The gender detector and the `ethnicolr` classifier are foreign libraries. They are function parameters returning arbitrary strings. Their own exceptions are not modelled.
- The per-author row assembly is left out: it is orchestration around the external calls. It covers the try/except around each author, the co-author loop, the email-or-geocoder fallback and the hard-coded placeholder list of language-model co-authors. The model takes the assembled rows as input.
- Python floats are exact reals here, so IEEE rounding in the ratios, the subtraction and the division by the bin width is not modelled. The pandas column starts as integer 0 and then holds floats; that dtype change is not modelled either.
- WriteDiffRatio: the table is an array of row records plus a separate array for the new column. `df.at[index, ...]` writes one cell of that column and changes no other column. The model states this as the rows being unchanged, but it does not model the column as part of the same table object.
- NumBins: requires a non-empty column. On an empty table `max() - min()` is NaN and `int()` raises, but the guard before the draw calls excludes that case.
