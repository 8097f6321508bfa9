# Vehicle report, modelled in Dafny

This project models the core of a small Java program. The program reads a CSV file of vehicles
(`year,make,model,msrp`, with one header line) and groups the vehicles by model year. Each
group is a `TreeSet` ordered by make, then by vehicle id. The program then writes a text
report with four parts:

- a header line;
- for each year, a heading line;
- for each vehicle, a detail line with its MSRP and its list price (MSRP × tax rate), both
  rounded half-even to cents;
- a grand total of both prices.

The modules follow the program's pipeline:

| module | what it models |
|---|---|
| `Wrappers` | `Option` and `Result`, for the exceptions the code raises or catches |
| `Numerals` | `Integer.parseInt` on 32-bit `int`s, and `String.valueOf(int)` |
| `Text` | `String.split(",", -1)`, `String.compareTo`, and the `%-Ns` conversion of `String.format` |
| `Decimals` | the part of `BigDecimal` the report uses |
| `Vehicles` | `Vehicle`, and the static id counter |
| `Parser` | `mapVehicle`, and the loader in `parseData` |
| `Aggregator` | `aggregateVehicles` |
| `Formatter` | the text and running totals of `generateReport` |
| `Pipeline` | properties of the three stages together |

In `Decimals`, a `BigDecimal` is an unscaled integer together with a scale. The module models
the string constructor, `add`, `multiply`, `setScale(2, HALF_EVEN)`, `equals`, and `toString`
at scale 2.

Code that changes state is written as methods:

- the id counter is a class whose field the `Vehicle` constructor increments;
- the `Vehicle` fields are set once by the constructor;
- the loader, the grouping loop and the report loops are methods with loops.

Each of these methods is proved against a function that says what it computes. The properties
are lemmas about those functions:

- parsing inverts printing;
- a `TreeSet` insert keeps the group sorted and adds exactly the untied element;
- with distinct ids, the groups partition the input;
- the report's loops visit every vehicle exactly once;
- both grand totals are exact, whatever order the years are visited in.

Two behaviours of the code are worth knowing when reading the parser:

- **A price that does not parse.** The year is assigned before the price is parsed
  (`src/Report.java:44-51`). So a valid year followed by a price that does not parse keeps the
  year, and only the price is -1. `Parser.SequentialFallback` states this.
- **A line with too few fields.** A line with fewer than three fields, or with exactly three
  and a non-empty first field, makes `attrs[i]` throw `ArrayIndexOutOfBoundsException`.
  Nothing in the lambda catches it; the `catch (Exception e)` in `parseData` does. So the whole
  load returns an empty list, and the vehicles built before that line have still taken their
  ids. `Parser.MapFields` and `Parser.ParseData` state this.

## Model

| member | source | states |
|---|---|---|
| Numerals.ParseInt | src/Report.java:45 | `Integer.parseInt`: a result is always within the 32-bit `int` range |
| Numerals.ParseIntToString | src/Report.java:45 | every `int` printed in decimal parses back to itself |
| Numerals.ParseIntShape | src/Report.java:45 | a string that parses is an optional sign followed by digits, so anything else is an error; its value is those digits with the sign applied |
| Numerals.IntToString | src/Report.java:134 | `String.valueOf(key)` starts with `-` exactly for negative keys |
| Numerals.NatToDigits | src/Report.java:134 | the digits of a natural number read back as that number, with no leading zero |
| Text.Split | src/Report.java:32 | `split(",", -1)` returns at least one field, no field holds the separator, and joining the fields gives the line back |
| Text.SplitJoin | src/Report.java:32 | splitting joined separator-free fields gives exactly those fields back, empty ones included |
| Text.SplitCount | src/Report.java:32 | there is one more field than there are separators in the line |
| Text.CompareToZero | src/Report.java:90 | `compareTo` is zero exactly for equal strings |
| Text.CompareToAntisymmetric | src/Report.java:90 | swapping the operands negates `compareTo` |
| Text.CompareToTransitive | src/Report.java:90 | `compareTo` orders strings transitively |
| Text.PadRight | src/Report.java:118-120 | `%-Ns` keeps the whole string, then pads it with spaces up to N characters and never cuts it |
| Decimals.Add | src/Report.java:140 | `add` produces the larger of the two scales |
| Decimals.AddValue | src/Report.java:140-141 | `add` is exact: the value of the sum is the sum of the values |
| Decimals.Multiply | src/Report.java:141 | `multiply` produces the sum of the scales |
| Decimals.MultiplyValue | src/Report.java:141 | `multiply` is exact: the value of the product is the product of the values |
| Decimals.ValueOfProduct | src/Report.java:141 | the product of two unscaled values, at the sum of the scales, has the product of the two values |
| Decimals.AddProductValue | src/Report.java:141 | `totListPrice.add(msrp.multiply(rate))` adds exactly msrp × rate to the total |
| Decimals.DivideHalfEven | src/Report.java:147 | the quotient is rounded to the nearest integer, and to the even one on an exact tie |
| Decimals.SetScale2 | src/Report.java:147 | `setScale(2, HALF_EVEN)` produces scale 2 |
| Decimals.SetScale2Value | src/Report.java:147 | the result is the nearest number of cents, the even one on an exact tie; it is exact when there are at most two fraction digits |
| Decimals.SetScale2ByValue | src/Report.java:147 | rounding depends only on the number, not on the scale it is written with |
| Decimals.SetScale2WithinHalfCent | src/Report.java:147 | a rounded price is within half a cent of the exact one |
| Decimals.ToString | src/Report.java:147-149 | at scale 2, `toString` is an optional minus sign (exactly for negative numbers), digits, a point and two digits, and never uses exponent notation |
| Decimals.Parse | src/Report.java:46 | `new BigDecimal(String)`: the scale of a result fits in an `int`, and a negative result comes from text that starts with `-` |
| Decimals.ParseToString | src/Report.java:46 | every number printed at scale 2 parses back to the same number |
| Decimals.ParseWholeNumber | src/Report.java:46 | a string of digits parses to that integer at scale 0 |
| Decimals.UnsignedPlain | src/Report.java:46 | a plain numeral parses to all its digits, at the scale given by its number of fraction digits |
| Vehicles.IdCounter.constructor | src/Vehicle.java:6 | the shared counter starts at 0 |
| Vehicles.Vehicle.constructor | src/Vehicle.java:13-19 | a new vehicle takes the counter's value as its id and increments the counter; its fields are the arguments, and its getters return them (lines 21-39) |
| Vehicles.CompareZero | src/Report.java:90 | the comparator ties exactly on the same make and the same id |
| Vehicles.CompareAntisymmetric | src/Report.java:90 | the comparator is antisymmetric |
| Vehicles.CompareTransitive | src/Report.java:90 | the comparator is transitive |
| Vehicles.IncreasingIdsDistinct | src/Vehicle.java:14 | ids taken from successive constructions are pairwise distinct |
| Parser.MapFields | src/Report.java:31-53 | the lambda fails exactly when it reads a missing field, and the index it fails on is 1, 2 or 3; otherwise make and model are fields 1 and 2 and the year fits in an `int` |
| Parser.EmptyFieldGivesSentinels | src/Report.java:34-47 | an empty year field (on a line of three or more fields) or an empty price field leaves both the year and the price at -1 |
| Parser.SequentialFallback | src/Report.java:40-51 | a year that does not parse leaves both numbers at -1; a year that parses is kept even when the price does not parse; when both parse, the row holds both |
| Parser.RowRoundTrip | src/Report.java:31-53 | a line written from an `int` year, a make and a model without commas, and a price with two fraction digits parses to exactly that year, make, model and price |
| Parser.ExampleRow | src/Report.java:31-53 | the line `2020,Toyota,Camry,25000` gives year 2020, make Toyota, model Camry and price 25000 |
| Parser.MapVehicle | src/Report.java:31-53 | a line that parses gives a new vehicle whose getters return the parsed row, with the next id; a line that throws constructs nothing and leaves the counter as it was |
| Parser.SkipHeader | src/Report.java:68 | `skip(1)` drops exactly the first line and keeps the rest in order |
| Parser.LoadRows | src/Report.java:68 | the rows of all lines in order exactly when every line parses, and nothing when one line throws |
| Parser.Constructed | src/Report.java:68-72 | the number of vehicles built before the first line that throws |
| Parser.ConstructedAt | src/Report.java:68-72 | that number is the index of the first line that throws |
| Parser.ParseData | src/Report.java:60-75 | every line after the header is mapped in order, and the vehicles get consecutive ids; the result is empty when one line throws; the counter advances by the number of vehicles constructed |
| Aggregator.InsertSpec | src/Report.java:90-94 | `TreeSet.add` keeps the group strictly ascending, and adds the vehicle exactly when no element ties with it |
| Aggregator.InsertMembers | src/Report.java:90-94 | `TreeSet.add` adds no element other than the new vehicle |
| Aggregator.OfYear | src/Report.java:87-96 | the vehicles of one year, in input order |
| Aggregator.OfYearMembers | src/Report.java:87-96 | a vehicle is among those of year k exactly when it is in the input and its year is k |
| Aggregator.AggregatedKeys | src/Report.java:85-96 | the map's keys are exactly the years that occur in the input |
| Aggregator.AggregatedSorted | src/Report.java:90-94 | every group is strictly ascending by (make, id) |
| Aggregator.AggregatedMembers | src/Report.java:87-96 | every group holds only input vehicles of the group's year |
| Aggregator.AbsentYear | src/Report.java:87-96 | a year without a group has no vehicles |
| Aggregator.AggregatedPartition | src/Report.java:87-96 | with distinct ids, each group holds exactly the input's vehicles of that year, none dropped or repeated |
| Aggregator.AggregateVehicles | src/Report.java:82-100 | the loop builds the year-to-group map that inserting each vehicle in turn defines |
| Formatter.HeaderKeepsTitle | src/Report.java:118-126 | the title, which is longer than its 20 columns, is written whole and followed by one space, and the date column is padded to 15 |
| Formatter.GroupLabelInvalid | src/Report.java:131-135 | a heading reads `invalid` exactly for the key -1; any other year's heading parses back to that year |
| Formatter.PriceCells | src/Report.java:146-149 | a cell reads `invalid` exactly for the sentinel -1 at scale 0; otherwise it is `$` followed by the price rounded half-even, which parses back to the rounded number and is within half a cent of the price |
| Formatter.MinusOneAtScaleTwo | src/Report.java:147 | `equals` compares scales, so -1.00 is not the sentinel and prints as `$-1.00` |
| Formatter.TotalValue | src/Report.java:140 | the running MSRP total is exactly the sum of all prices, sentinels included |
| Formatter.ListTotalExact | src/Report.java:141 | the running list-price total is exactly the sum of the list prices |
| Formatter.ListSumFactors | src/Report.java:141 | the sum of the list prices is the sum of the prices times the rate |
| Formatter.ListTotalValue | src/Report.java:141 | the running list-price total is the sum of the prices times the tax rate |
| Formatter.SummaryEnd | src/Report.java:158-162 | the summary's last character is a digit or a padding space, never a line break; it is the last cent digit of the printed list-price total or padding after it |
| Formatter.ReportEndsWithoutLineBreak | src/Report.java:157-163 | the report's last line has no line break after it |
| Formatter.WriteGroup | src/Report.java:138-153 | the inner loop writes the group's detail lines and adds each vehicle's price and list price to the running totals |
| Formatter.WriteSection | src/Report.java:130-154 | one pass of the outer loop writes the year's heading and its group |
| Formatter.GenerateReport | src/Report.java:115-163 | the text written is the header, every group in map iteration order, and the summary; the final totals are the totals over every vehicle written |
| Pipeline.AmongStep | src/Report.java:130-138 | selecting one more year adds exactly that year's vehicles |
| Pipeline.FlattenGroups | src/Report.java:130-138 | writing out the groups of distinct years gives exactly the input's vehicles of those years |
| Pipeline.FlattenIsPermutation | src/Report.java:82-100 | with distinct ids, the report's loops visit each input vehicle exactly once |
| Pipeline.MsrpSumPermutation | src/Report.java:140 | the sum of the prices does not depend on the order of the vehicles |
| Pipeline.TotalsOfPermutation | src/Report.java:140-141 | the totals of any rearrangement of the vehicles are their exact sum, and that sum times the rate |
| Pipeline.GrandTotals | src/Report.java:140-141 | for any iteration order of the map, the MSRP total before rounding is the exact sum of all prices, and the list-price total is that sum times the tax rate |
| Pipeline.LoadedIdsDistinct | src/Report.java:68 | the vehicles of one load have distinct ids, so grouping drops none of them |

## Left out

- File and console I/O are not modelled: opening, reading and closing the data file, the output file's name, the `createNewFile` check and "File already exists.", `main` and its `Scanner` prompts, and `printVehicles`. The lines of the file, the date and the tax rate are parameters, and the report is returned as a string.
- `printStackTrace` is not modelled. An `IOException` from the writer is not modelled either; the model assumes every write succeeds.
- The clock is not modelled. The date in the header is a parameter.
- The `HashMap` iteration order is a parameter `order` that lists each key exactly once (`Formatter.Enumerates`). Every property about the report holds for any such order.
- A `TreeSet` is modelled as the ascending sequence it iterates in. The tree itself is not modelled.
- The `null` checks for make and model are not modelled. Fields from `split` are never null, so the `"invalid"` substitution cannot happen.
- `newLine()` is written as `"\n"`. The platform line separator is not modelled.
- The `Report` object's `dataFile` and `taxRate` fields and their getters are not modelled. Only their values are passed in.
- Numerals.ParseInt: accepts ASCII digits only. `Integer.parseInt` also accepts digits of other Unicode scripts.
- Decimals.Parse: accepts ASCII digits only. `new BigDecimal(String)` also accepts digits of other Unicode scripts.
- Text.CompareTo: compares Unicode code points. Java compares UTF-16 code units, so the two orders can differ only for characters outside the Basic Multilingual Plane.
- Decimals.ToString: stated only for scale 2, the only scale the report prints. Other scales, and the exponent notation they can need, are not modelled.
- Vehicles.Vehicle.constructor: the id is unbounded. The Java `Integer` counter wraps around after 2^31 constructions.
- Decimals.Add: the scale difference and the unscaled values are unbounded. Java's `add` throws `ArithmeticException` when the difference of the two scales does not fit in an `int` and the operand it rescales is not zero, or when bringing that operand to the larger scale takes it beyond `BigInteger`'s supported range (below 2^2147483647 in magnitude), as for the price `1e2147483647` added to `BigDecimal.ZERO` at `src/Report.java:140`. The model always returns the sum.
- Decimals.SetScale2: the scale difference is unbounded. Java's `setScale(2, HALF_EVEN)` throws `ArithmeticException` when `2 - scale` does not fit in an `int` and the number is not zero (a zero is returned at scale 2 before the check). In `generateReport` such a price never reaches line 147: both totals keep a scale of at least 0, so the `add` at line 140 has to rescale it the same way and throws first. Nothing in `generateReport` catches either, since its catches take only `IOException`. The model always returns the rounded value.
- Text.PadRight: counts Unicode code points. Java's `%-Ns` pads to N UTF-16 code units (`String.length()`), so the two differ for characters outside the Basic Multilingual Plane.
- Decimals.Multiply: the scale is unbounded. Java's `multiply` throws `ArithmeticException` when the sum of the two scales does not fit in an `int` and the receiver, the price `v.getMsrp()`, is not zero, even when the rate is zero; the model always returns the product.
- The `-1` sentinel is added into both totals, as the code does. This is modelled as written, not corrected.
