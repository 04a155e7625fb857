# Vehicle advertisement dashboard, modelled in Dafny

The dashboard loads a table of used-vehicle advertisements and adds two
derived columns:

- `brand` is the first whitespace-delimited word of `model`.
- `vehicle_age` is `2019 - model_year`.

Besides a scatter plot of the table itself, it draws six charts from six
small pandas expressions:

1. Vehicle types across the ten most frequent brands.
2. Vehicle types among listings with more than 200 000 miles.
3. Mean price per paint colour.
4. Priced listings per model year and condition, as a long table.
5. Number of listings per paint colour.
6. Mean and spread of the mileage per brand among vehicles under ten
   years old, highest mean first.

This project models those expressions as pure functions over an immutable
`seq<Listing>` and proves what each table means in terms of the rows it
comes from.

The model keeps the pandas semantics the expressions rely on:

- A missing value (NaN) is `None`.
- `value_counts` drops missing values and lists counts largest first.
- `groupby` drops rows whose key is missing and sorts the keys in
  ascending order. Python compares strings code point by code point, and
  a proper prefix sorts first.
- `isin` never holds of a missing brand.
- A comparison with a missing number is false.
- `agg('size')` counts a row whose measured value is missing; `mean` and
  `std` skip it.
- `sort_values(ascending=False)` puts missing means last.
- `pivot_table(aggfunc='count')` followed by `melt` gives one row per
  model year and condition among the rows that have both. Its count is
  the number of those rows with a price when the combination occurs. It
  is missing, not zero, when the combination does not occur.

Means are exact rationals (`real`): the sum of the values divided by
their number. The standard deviation is modelled as the sample variance
(denominator n - 1), which is missing for fewer than two values. The
module `Grouping` computes it in one pass from running sums and proves
that equal to the definition.

Two consequences of app.py worth spelling out:

- `groupby` sorts the colours, so the mean-price chart lists them in
  ascending order, not in the order they first appear. `WorkedExample`
  therefore gives blue (8000) before red (20000).
- A model year and condition that no row shares stays missing after the
  pivot and melt; it is not zero.

Modules follow the structure of the program:

- `Listings`: the row type and the derived columns (app.py:9-10).
- `Tokens`: Python's `str.split()`.
- `Counting`: value counts, group sizes, filtering and top-N.
- `Grouping`: grouped means and variances.
- `YearCondition`: the pivot and melt.
- `Views`: the six chart tables.
- `Sorting` and `Collation`: the orders used.
- `WorkedExample`: two concrete listings.

## Model

| member | source | states |
|---|---|---|
| Listings.Brand | app.py:9 | A missing model gives a missing brand. A blank model (only whitespace) gives a missing brand. Otherwise the brand is the first whitespace-delimited word of the model, preceded only by whitespace and followed by whitespace or the end. |
| Listings.BrandOfFirstToken | app.py:9 | Conversely, any word standing first in a model in that sense is the model's brand. |
| Tokens.SplitHead | app.py:9 | `split()` of an all-whitespace string is empty. Otherwise its first element is the first word of the string. |
| Tokens.FirstTokenUnique | app.py:9 | A string has at most one first word, and it is `split()[0]`. |
| Tokens.LeadingWord | app.py:9 | The word that follows the leading whitespace of a non-blank string is its first token. |
| Tokens.Split | app.py:9 | Every piece of `split()` is non-empty and free of whitespace. There are no pieces exactly when the string is all whitespace. |
| Tokens.SplitStep | app.py:9 | For a non-blank string, the first piece of `split()` is its first token, and the remaining pieces are the split of what follows that token; with `FirstTokenUnique` this fixes every piece. |
| Listings.VehicleAge | app.py:10 | The age is present exactly when the model year is. Age plus model year is 2019. The age is negative exactly for model years after 2019. |
| Listings.Derive | app.py:9-10 | One row per listing, the listing unchanged, with the brand of its model and the age of its model year (present exactly when the year is). |
| Counting.Where | app.py:33 | A boolean-mask selection keeps each row exactly as often as it occurs when the mask holds of it, and drops it otherwise. |
| Counting.Distinct | app.py:147 | The distinct keys of a column: no duplicates, and exactly the non-missing values that occur. |
| Counting.TallyTotal | app.py:34 | Counting each of a duplicate-free list of keys that covers every observed value adds up to the number of non-missing entries. |
| Counting.ValueCounts | app.py:56 | `value_counts()` gives one positive count per distinct non-missing value, equal to its number of occurrences. The keys are exactly the observed values. The counts add up to the number of non-missing entries and do not increase. |
| Counting.GroupSizes | app.py:34 | `groupby(...).size()` gives the same count table in ascending key order. |
| Counting.MostFrequent | app.py:32 | `value_counts().head(n).index` gives at most n distinct observed values, all of them when there are fewer than n. Every value kept occurs at least as often as every value left out. |
| Sorting.Sort | app.py:152 | The sorted sequence is a permutation of its input: the same elements, each as often. |
| Sorting.SortSorted | app.py:152 | Under an order that is total and transitive, every element of the sorted sequence comes before every later one. |
| Sorting.SortDistinct | app.py:152 | Sorting keeps the keys of a table distinct. |
| Sorting.SortSum | app.py:152 | Sorting keeps the total of any per-row weight, such as a table's counts. |
| Collation.StrLeqIsTotalPreorder | app.py:34 | Python's string order is total and transitive, so sorting by it is well defined. |
| Collation.PairLeqIsTotalPreorder | app.py:34 | The order on (brand, type) keys is total and transitive: brand first, then type. |
| Grouping.Accumulate | app.py:147-151 | One pass over the rows keeps aggregates for exactly the observed keys. Each key's aggregates are its group's row count, number of non-missing values, sum and sum of squares. |
| Grouping.Aggregate | app.py:147-151 | The grouped table has one row per observed key and no other. Each row carries its group's aggregates with at least one row. The group sizes add up to the rows with a key. |
| Grouping.MeanWithinRange | app.py:148 | The mean of a non-empty group lies between the group's smallest and largest value. |
| Grouping.VarianceFromSums | app.py:149 | The one-pass formula over running sums equals the sample variance about the mean. That variance is never negative. |
| Grouping.AccVarianceIsSampleVariance | app.py:149 | The variance computed from a group's row count, value count, sum and sum of squares equals the sample variance of its values, including being missing for fewer than two values. |
| Grouping.SampleVarianceNonNegative | app.py:149 | A present sample variance is never negative. |
| Views.TopBrands | app.py:32 | The top-brand list has at most ten distinct brands that occur, and all of them if fewer than ten occur. No brand outside it occurs more often than a brand inside it. |
| Views.TopBrandRows | app.py:33 | The filtered rows are exactly the rows whose brand is present and in the top-brand list, with multiplicities kept. |
| Views.BrandTypeHasTopBrand | app.py:33-34 | Any (brand, type) pair occurring among the filtered rows has a top brand. |
| Views.BrandTypeCounts | app.py:34 | One positive count per (brand, type) pair of the filtered rows, each pair once. The counts add up to the filtered rows having both brand and type. The pairs come in ascending order, and every brand is a top brand. |
| Views.HighMileageRows | app.py:55 | The subset is exactly the rows with a present odometer reading above 200000, with multiplicities kept. |
| Views.HighMileageTypeCounts | app.py:56-57 | The type counts of the subset do not increase and add up to its rows with a type. The table is empty, not an error, exactly when no row of the subset has a type. |
| Views.MeanPriceByColor | app.py:78 | One row per colour that occurs, in ascending colour order. Each row holds the exact mean of that colour's present prices, missing when there are none. |
| Views.ColorPriceRows | app.py:78 | Turning a grouped price table into chart rows keeps each colour once, keeps exactly the observed colours, and keeps each colour's mean price. |
| Views.MeanPriceWithinRange | app.py:78 | A colour's mean price lies between its cheapest and dearest listing. |
| Views.ColorFrequency | app.py:125-126 | Each present colour is listed once with its number of rows. The counts do not increase and add up to the rows with a colour. |
| Views.RecentRows | app.py:146 | The kept rows are exactly those with a present age below 10, with multiplicities kept. |
| Views.BrandMileageRows | app.py:147-151 | Turning a grouped mileage table into chart rows keeps each brand once and exactly the observed brands. Each row keeps its count, mean and variance, and the counts add up to the rows with a brand. |
| Views.MileageByBrand | app.py:147-152 | One row per brand of the recent rows. `vehicle_count` is its number of recent rows, positive, and the counts add up to the recent rows with a brand. The mean is that of its present odometer readings. The variance is their sample variance: missing exactly when there are fewer than two readings, never negative otherwise. Rows come in non-increasing mean order with missing means last. |
| Views.MeanMileageWithinRange | app.py:148 | A brand's mean mileage lies between its lowest and highest reading. |
| YearCondition.SortedYears | app.py:97 | The pivot's index holds each model year of the rows with year and condition exactly once, in ascending order. |
| YearCondition.SortedConditions | app.py:98 | The pivot's columns hold each condition of those rows exactly once, in ascending order. |
| YearCondition.CellCountMeaning | app.py:99-100 | A cell's value is the number of rows of that year and condition with a price if the combination occurs, and missing otherwise. |
| YearCondition.MeltOrdered | app.py:102-106 | The melt lists cells column by column: by condition, then by model year. |
| YearCondition.YearConditionCounts | app.py:96-106 | One cell for every pair of an observed year and an observed condition, each pair once. A cell's count is that combination's priced-row count when it occurs, and missing (not zero) when it does not. Cells are ordered by condition, then year. |
| YearCondition.YearTotalIsPricedRows | app.py:96-106 | Summing a year's present counts over the conditions gives that year's number of rows with a condition and a price. |
| WorkedExample.FordsDerived | app.py:9-10 | "Ford F150" of 2015 and "Ford Focus" of 2010 both get brand "Ford", with ages 4 and 9. |
| WorkedExample.FordsChart | app.py:78 | For those two listings, the mean-price chart is blue at 8000, then red at 20000. |

## Left out

- Loading the CSV file (app.py:6) is file I/O. The dataset is a given `seq<Listing>`.
- The page title, headers, checkboxes and chart display (`st.*`) are user interface. A checkbox only decides whether a table is computed, so each table is modelled unconditionally.
- Chart construction and layout (`px.*`, `update_layout`) are rendering. The scatter chart (app.py:17-27) passes the table through unchanged.
- Columns the dashboard never reads are not part of `Listing`.
- Listings.Derive: when no listing has a `model`, pandas reads the column as floating point and `.str` at app.py:9 raises, stopping the script before any chart. The model instead gives every row a missing brand.
- Tokens.Split: its own contract gives only the shape of the pieces; how they are cut from the string is stated by `Tokens.SplitStep`.
- Prices, odometer readings and model years are whole numbers. pandas reads them as floating point because of missing values. A fractional value is not modelled.
- Floating-point rounding of means is not modelled; means are exact rationals.
- Views.MileageByBrand: states the sample variance rather than `std_mileage`, its square root, because the square root of a rational is not exact.
- Views.MileageByBrand: fixes the order only up to equal means. pandas' default sort is not stable and breaks ties in an unspecified way.
- Counting.ValueCounts: fixes the order only up to equal counts, for the same reason.
- Views.TopBrands: does not say which of several brands tied at the tenth count are kept. The tie order of `value_counts` is unspecified.
- YearCondition.YearConditionCounts: does not model `pivot_table` dropping all-missing columns. With a count aggregate no observed condition can give an all-missing column.
