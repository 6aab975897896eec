# cli-tools in Dafny

A Dafny model of two parts of the Go repository xnslong/cli-tools.

**export_ip_pool** samples the egress address seen by a target URL, once per configured proxy. Each probe task feeds what it sees into a `Pool`. A pool remembers every value it was given and also keeps a bounded FIFO of freshness bits. A bit is 1 when the put brought in a new value and 0 when the value was already known. The pool keeps a running sum of the bits in the window. A task stops once its window is full and its repeat rate (`1 - fresh rate`) reaches the threshold. `main` folds every task's values into one set. The log context is a chain of key/value nodes, flattened with the oldest node first.

**csv** and **csv_to_json** have these parts:
- the `jType` column types and their alias tables;
- `<field>=<type>` option parsing;
- field conversion (`strconv.ParseBool`, `strconv.ParseInt` base 10 at 64 bits, and `ParseFloat`);
- the column index, where the last occurrence of a name wins;
- field projection (`extract`);
- record conversion into a field-to-value map (`to-json`);
- the comparator algebra (`cmpValue`, `seqCmp`, `reverse`, `cmpField`);
- the `sort` command, which reorders the records of an in-memory table in place.

Modules:
- `Wrappers`: Option and Result.
- `Pool`: pool.go.
- `Task` and `Orchestrator`: export_ip_pool/main.go.
- `LogContext`: log.go.
- `CsvComparator`: comparator.go.
- `CsvTypes`: csv/type.go.
- `CsvCommon`: csv/common.go.
- `CsvSort`: csv/sort.go.
- `CsvMain`: csv/main.go.
- `CsvToJson`: the alias table of csv_to_json/csv.go.

Three Go functions are exact copies of the csv tool's, apart from the alias table: csv_to_json's `String`, `convType` and `convertRecord`. Its `parseFieldConversionTypes` and its conversion loop in `main` are also copies. Each is modelled once, in `CsvTypes` and `CsvMain`. Option parsing takes the alias table as a parameter. `CsvToJson` proves where the two tables agree. It also proves that options which avoid the two extra csv aliases give both tools the same field-type map.

Outside effects become values:
- The network becomes a sequence of observations, each `Ok(value)` or `Err`.
- A csv reader becomes the sequence of results its successive `Read` calls return. Reading past the end gives EOF.
- `strconv.ParseFloat` is a function parameter.
- The fatal `log.Fatalf` exits become `Failure` results or `Some(error)` outputs.
- The goroutines and channels become tasks run one after another. Their results reach the aggregator in an arbitrary arrival order.

With `Cases == 0` the code gives a particular stopping rule. The window length is then always 0, which equals `Cases`, and the rate is always 1. So a task stops on its first sample exactly when the threshold is at most 0, and never stops on the rule otherwise. `Task.ZeroCasesRule` states this.

## Model

| member | source | states |
|---|---|---|
| Pool.SlideKeepsWindow | export_ip_pool/pool.go:36-47 | After a put the window holds only bits and never exceeds the capacity. With a positive capacity, the new bit is last and a full window drops exactly its oldest bit. The sum changes by the new bit minus the evicted one. |
| Pool.RateInUnit | export_ip_pool/pool.go:61-67 | The freshness rate of a window of bits always lies in [0, 1]. |
| Pool.Pool.constructor | export_ip_pool/pool.go:12-17 | A new pool has the given capacity, no values, an empty window and a zero sum, and satisfies the invariant. |
| Pool.Pool.Put | export_ip_pool/pool.go:30-59 | The value joins the seen set. The window slides by the put's freshness bit: 1 if the value was new, else 0. The invariant `fresh == sum(ch)` and `0 <= fresh <= len(ch) <= cap` is kept. With capacity 0 it returns the bit itself; otherwise it returns the rate of the new window. |
| Pool.Pool.FreshRate | export_ip_pool/pool.go:61-67 | Returns the window length and the rate computed from the running sum. The rate equals the exact fraction of 1-bits, or 1 for an empty window, and lies in [0, 1]. |
| Pool.Pool.GetAll | export_ip_pool/pool.go:19-28 | Returns every value ever put, each exactly once. |
| Pool.RepeatedPutTrace | export_ip_pool/pool_test.go:9-31 | Five puts of one value into a pool of capacity 5 return 1, 1/2, 1/3, 1/4 and 1/5. The window length is then 5, and a sixth put returns 0. |
| Task.RunTask | export_ip_pool/main.go:87-127 | The task loop over a fresh pool of capacity `Cases` agrees with the reference run `TaskSpec`: the same outcome, the same number of observations used, and the same distinct values, each listed once. |
| Task.RunCollects | export_ip_pool/main.go:99-124 | A run uses observations only up to its stop. All of them are successes, except the final request error of a failed run. The run contributes every value it sampled successfully, on a failure too, since GetAll is deferred. |
| Task.StopsRightAfterSampleIff | export_ip_pool/main.go:116-123 | A run stops right after a successful sample if and only if the window length equals `Cases` and `1 - rate >= RepeatRate` on the window after that sample. |
| Task.NonPositiveThresholdFillsWindow | export_ip_pool/main.go:116-123 | With `Cases > 0` and threshold at most 0, a run stops at exactly the sample that fills its window. |
| Task.NonPositiveThresholdStopsAtN | export_ip_pool/main.go:116-123 | With `Cases = N > 0`, threshold at most 0 and N successful requests, the task converges after exactly N samples. |
| Task.ZeroCasesPositiveThresholdNeverConverges | export_ip_pool/main.go:121 | With `Cases = 0` and a positive threshold, the stopping rule never holds. |
| Task.ZeroCasesRule | export_ip_pool/main.go:97-123 | With `Cases = 0`, a task converges if and only if its first request succeeds and the threshold is at most 0. It then stops after one sample. |
| Task.FailingRequesterContributesNothing | export_ip_pool/main.go:110-114 | A task whose first request fails ends as failed, after one observation, with no values. |
| Orchestrator.FirstNotEmpty | export_ip_pool/main.go:184-191 | The result is "" exactly when every argument is empty. Otherwise it is the first non-empty argument. |
| Orchestrator.UnionMembers | export_ip_pool/main.go:145-149 | A value is in the aggregate exactly when some task result holds it. |
| Orchestrator.UnionOrderIndependent | export_ip_pool/main.go:140-150 | Two arrival orders of the same task results give the same aggregate set. |
| Orchestrator.Aggregate | export_ip_pool/main.go:143-150 | Inserting every value of every result, in arrival order, yields the union of the results. |
| Orchestrator.Orchestrate | export_ip_pool/main.go:152-175 | With no proxy configured there is one task, with the empty address; otherwise there is one task per address, in order. For any arrival order, a value is in the final set exactly when some task collected it. |
| Orchestrator.ProxyLogName | export_ip_pool/main.go:160 | The proxy name main logs is the address, or "no_proxy" for the direct task. |
| Orchestrator.MainTaskFields | export_ip_pool/main.go:136-160 | The fields main puts on a task's log context are `loop=0` and `proxy=<name>`. |
| Orchestrator.TaskLogFields | export_ip_pool/main.go:87-90 | Inside a task, the log fields are main's two fields, followed by `proxy=<address>` when there is a proxy. |
| LogContext.AppendTo | export_ip_pool/log.go:17-23 | Flattening a chain onto `t` gives `len(t)` plus the number of fields of every node in the chain. |
| LogContext.AppendToShape | export_ip_pool/log.go:17-23 | Flattening onto `t` keeps `t` in front and ends with the node's own fields. |
| LogContext.AppendToOnto | export_ip_pool/log.go:17-23 | Flattening onto `t` equals `t` followed by the chain flattened on its own. |
| LogContext.PairsSnoc | export_ip_pool/log.go:47-51 | Two more arguments add one field at the end. |
| LogContext.PairsAt | export_ip_pool/log.go:45-51 | An even list of arguments yields half as many fields. Field k is the pair at positions 2k and 2k+1. |
| LogContext.CtxAddKvs | export_ip_pool/log.go:40-61 | With no arguments the context is returned unchanged. Otherwise it pairs up the arguments in order and pushes one new node, whose previous node is the old head. |
| LogContext.GetKvList | export_ip_pool/log.go:67-74 | With no chain the list is empty. Otherwise its length is the number of fields in the whole chain. |
| LogContext.AddKvsAppends | export_ip_pool/log.go:40-74 | After adding pairs, the flattened list is the old list followed by exactly the new fields, oldest first. |
| LogContext.AddPairAppends | export_ip_pool/log.go:40-61 | Adding one key/value pair appends exactly that one field at the end of the flattened list. |
| CsvComparator.BoolAsIntOrders | csv/comparator.go:3-9 | Through boolAsInt, false orders before true, and equal ints mean equal bools. |
| CsvComparator.CmpValueMeaning | csv/comparator.go:11-20 | For a strict total order, cmpValue is 0, 1 or -1 exactly for equal, greater or less values. Swapping its arguments negates it. |
| CsvComparator.CmpValueTransitive | csv/comparator.go:11-20 | For a transitive strict order, cmpValue's "not greater" is transitive. |
| CsvComparator.StrLessStrict | csv/comparator.go:11-20 | Go's string order is strict and total: two differing strings are ordered exactly one way. |
| CsvComparator.StrLessTransitive | csv/comparator.go:11-20 | Go's string order is transitive. |
| CsvComparator.StrCmpPreorder | csv/comparator.go:11-20 | cmpValue on strings is antisymmetric and transitive. |
| CsvComparator.SeqCmpAt | csv/comparator.go:24-34 | The result is 0 exactly when every component says 0. Otherwise it is the result of the first component that is not 0. |
| CsvComparator.SeqCmpPriority | csv/comparator.go:24-34 | When the first k components tie and component k does not, seqCmp returns component k's result. |
| CsvComparator.SeqCmpEmpty | csv/comparator.go:24-34 | seqCmp of no comparators is constantly 0. |
| CsvComparator.SeqCmpAntisymmetric | csv/comparator.go:24-34 | If every component is antisymmetric on a set of values, so is seqCmp. |
| CsvComparator.SeqCmpPreorder | csv/comparator.go:24-34 | If every component is a total preorder on a set of values, so is seqCmp. |
| CsvComparator.ReverseTwice | csv/comparator.go:36-40 | Reversing twice agrees with the original comparator everywhere. |
| CsvComparator.ReverseAntisymmetric | csv/comparator.go:36-40 | Reversing keeps antisymmetry. |
| CsvComparator.ReversePreorder | csv/comparator.go:36-40 | Reversing a total preorder gives a total preorder. |
| CsvTypes.ParseJTypeAliases | csv/type.go:54-69 | A type string parses to t exactly when it is one of t's aliases: string/str/s, int/i, bool/b/boolean, float/f/double/d. Any other string is an error naming it. |
| CsvTypes.ParseJTypeRoundTrip | csv/type.go:13-26 | Each of the four named types parses back from its String form. |
| CsvTypes.UnknownTypeName | csv/type.go:23-24 | Any other jType prints as "<unknown>", which parses as no type. |
| CsvTypes.ParseBoolRoundTrip | csv/type.go:73-74 | ParseBool reads back the text FormatBool makes of a bool. |
| CsvTypes.ParseInt64Meaning | csv/type.go:79-81 | ParseInt(s, 10, 64) succeeds exactly on an optionally signed run of decimal digits whose value fits in 64 bits, and then returns that value. |
| CsvTypes.ParseInt64InRange | csv/type.go:79-81 | A parsed int always lies within the int64 range. |
| CsvTypes.OverflowBeforeSyntax | csv/type.go:79-81 | For any non-empty run of digits followed by a non-digit and any rest, the result is a range error when the run's value exceeds 64 bits, and a syntax error otherwise. |
| CsvTypes.OverflowExamples | csv/type.go:79-81 | Twenty nines followed by "x" is a range error, and "9x" is a syntax error. |
| CsvTypes.ParseInt64RoundTrip | csv/type.go:79-81 | Every int64 parses back from its decimal form. |
| CsvTypes.ConvType | csv/type.go:71-87 | The converted value has t's kind, and Str is the identity. Int succeeds exactly on an optionally signed decimal literal whose value fits in an int64, and gives that value. Bool gives true for 1, t, T, TRUE, true and True, false for 0, f, F, FALSE, false and False, and a syntax error for anything else. Float succeeds exactly when the float parser does, with its value. A jType other than the four fails with "unsupported type", and only such a jType does. |
| CsvTypes.ConvIntRoundTrip | csv/type.go:79-81 | Converting an int64's decimal form to Int gives the same int back. |
| CsvTypes.SplitSpec | csv/type.go:38-44 | An option splits exactly when it contains "=". The field is the text before the first "=", with no "=" in it, and the type string is everything after. |
| CsvTypes.SplitSpecJoin | csv/type.go:38-44 | A field without "=" and any type string are recovered from `field=type`. |
| CsvTypes.ParseSpecMeaning | csv/type.go:37-49 | An option without "=" is an invalid option. `field=typeStr` parses exactly when typeStr does, and gives (field, type). |
| CsvTypes.ConversionTypesMeaning | csv/type.go:35-52 | Option parsing succeeds exactly when every option parses, otherwise it fails with the first bad option's error. The map's keys are exactly the fields the options name. Each field takes the type of the last option that names it. |
| CsvTypes.LastSpecWins | csv/type.go:49 | When two options name the same field, the later one decides its type. |
| CsvTypes.ParseFieldConversionTypes | csv/type.go:35-52 | The loop over the options computes `ConversionTypes`, including its first fatal error. |
| CsvCommon.CsvInfo.constructor | csv/common.go:55-58 | A table holds the given header and records. |
| CsvCommon.ColIndex | csv/common.go:64-70 | The keys are exactly the header's names. Each maps to a position holding that name, and no later position holds it. |
| CsvCommon.GetColIndex | csv/common.go:64-70 | The loop computes `ColIndex` of the header. |
| CsvCommon.ColIndexSnoc | csv/common.go:66-68 | One more header name maps to the new last position, and every other name keeps its position. |
| CsvCommon.ColumnOfMeaning | csv/main.go:84-87 | A requested name in the header selects its last column. A name not in the header selects column 0, Go's zero value. With a non-empty header the column always exists. |
| CsvCommon.ReadRecordsMeaning | csv/common.go:40-51 | On success the records are the rows read, in order, up to the first EOF. On failure the error is the first non-EOF error after a run of rows. |
| CsvCommon.ReadTableMeaning | csv/common.go:28-53 | readCsv succeeds exactly when the first read gives a record and the rest end at EOF with no error. The first record is then the header and the others follow in order. A failed header read is the error. |
| CsvCommon.ReadCsv | csv/common.go:28-53 | On success it returns a new table with that header and those records. On failure it returns no table and the read error. |
| CsvSort.FieldKey | csv/sort.go:38-42 | A record's key exists exactly when the column exists and its text converts to the field's type. The key is then the converted value of that field. A missing column is an index error, and a text that does not convert reports the text, the type and the conversion error. |
| CsvSort.CmpFieldMeaning | csv/sort.go:36-58 | cmpField is -1, 0 or 1, and 0 exactly for equal keys. Bools order false before true, ints and floats by value, strings lexicographically. |
| CsvSort.CmpValuesPreorder | csv/sort.go:44-52 | Comparing two converted values of one type is antisymmetric and transitive. |
| CsvSort.CmpFieldPreorder | csv/sort.go:36-58 | On records whose key converts, cmpField is a total preorder. |
| CsvSort.ReverseFlag | csv/sort.go:18-20 | `--reverse` negates the whole composite comparator. |
| CsvSort.FirstFieldDecides | csv/sort.go:13-17 | Comparators follow the order of the `--field` list: the first field on which two records differ decides their order. With no fields, every pair of records ties. |
| CsvSort.SortCmpPreorder | csv/sort.go:10-20 | When every key converts, the sort comparator, reversed or not, is a total preorder on the records. |
| CsvSort.SortByPermutes | csv/sort.go:22-24 | The modelled sort returns a permutation of its input. |
| CsvSort.SortBySorted | csv/sort.go:22-24 | For a total preorder, the sorted result has no element greater than a later one. |
| CsvSort.SortByShort | csv/sort.go:22-24 | Fewer than two records come back unchanged. |
| CsvSort.SortOrdersRecords | csv/sort.go:10-25 | When every key converts, sorting yields a permutation of the records in which no record is greater than a later one. |
| CsvSort.Sort | csv/sort.go:10-25 | The header is unchanged. The sort fails exactly when there are at least two records and some key does not convert, and then the records are untouched. Otherwise the records are reordered by the comparators of the fields, reversed under `--reverse`. A field missing from `--field-type` compares as a string, and a field missing from the header compares column 0. |
| CsvSort.BuildComparator | csv/sort.go:11-20 | The loop over `--field` builds exactly the composite comparator `SortCmp`: one field comparator per option, in order, combined and then reversed under `--reverse`. |
| CsvSort.FirstKeyFailure | csv/sort.go:38-42 | Reports no failure exactly when every record's key converts for every field. A reported failure names one of the fields. |
| CsvMain.BuildIndices | csv/main.go:82-87 | One index per requested name, in order: the name's last column when the header has it, else 0. With a non-empty header every index is a column. |
| CsvMain.ExtractFields | csv/main.go:114-122 | The result has one field per index, and field k is `rec[idx[k]]`. |
| CsvMain.ExtractedHeaderIsNames | csv/main.go:81-89 | When every requested name is in the header, projecting the header gives exactly the requested names. |
| CsvMain.RowsOfHeaderWidthProject | csv/main.go:95-104 | The same indices are valid for every row as wide as the header. |
| CsvMain.RecordPrefixSucceeds | csv/main.go:157-178 | Conversion of the first n columns succeeds exactly when each of those columns converts. |
| CsvMain.RecordPrefixFirstError | csv/main.go:165-171 | A failed conversion reports the first column that does not convert, with its name, text, type and cause. |
| CsvMain.RecordPrefixMap | csv/main.go:157-178 | A successful conversion has one key per title name, holding the value of the last column with that name. |
| CsvMain.OverwriteLast | csv/main.go:158-175 | Storing names in order into a map keeps one key per name, holding the value stored at that name's last position. |
| CsvMain.RecordPrefixOverwrite | csv/main.go:158-178 | A successful conversion stores each column's converted value under its name, in column order. |
| CsvMain.RecordPrefixStops | csv/main.go:168-170 | Once a column fails, the whole record fails with that column's error. |
| CsvMain.ConvertRecord | csv/main.go:157-178 | The column loop computes `RecordPrefix` over all title columns, stopping at the first failure. |
| CsvMain.ConvertRecordMeaning | csv/main.go:157-178 | convertRecord succeeds exactly when every typed column converts. Its keys are then exactly the title names. Each holds the value of that name's last column, raw text for an untyped name. On failure it reports the first failing column. |
| CsvMain.ConvertRow | csv/main.go:140-147 | A record not as wide as the title is rejected before conversion. Otherwise the record succeeds exactly when convertRecord does. |
| CsvMain.ConvertToJson | csv/main.go:124-155 | A failed title read is fatal. After that, map k comes from record k, a row converted by `ConvertRow`. The loop ends normally exactly at EOF. Otherwise it stops at the first read error, width mismatch or conversion error, numbered by its 0-based record index. |
| CsvToJson.ParseJTypeAliases | csv_to_json/csv.go:140-155 | csv_to_json's table: str/string, int/i, bool/b/boolean, float/f/double. A type string parses to t exactly when it is one of these aliases; anything else is an error naming it. |
| CsvToJson.ParseJTypeRoundTrip | csv_to_json/csv.go:25-38 | Each of the four named types parses back from its String form. |
| CsvToJson.TablesAgree | csv_to_json/csv.go:142-152 | The two tools read every type string alike, except "s" and "d": only the csv tool accepts them, as string and float. |
| CsvToJson.SameConversionTypes | csv_to_json/csv.go:121-138 | Options that avoid "s" and "d" give both tools the same field-type map, or the same fatal error. |
| CsvToJson.ShortStringDiffers | csv_to_json/csv.go:143-152 | The option `x=s` types x as a string in the csv tool and is fatal in csv_to_json. |

## Left out

- HTTP probing (`req`, the HTTP client, reading the body) is replaced by the observation sequence. The sequence is finite, so the outcome `Exhausted` stands for a source that would go on answering.
- `createUrl` depends on `url.Parse` and is not modelled. When the credentials do not split into exactly two parts, it returns (nil, nil). A requester that cannot be created is the `created` flag of a run.
- The rate limiter (`prepareLimiter`, and the retry when `Wait` fails) is time-based library code and is not modelled.
- The concurrency in `main` is not modelled: the goroutines, the wait groups, the concurrency gate, the result channel and `WithRecover`. The tasks run one after another, and the arrival order is a parameter.
- zap logging, `SetLevel`, `prepareLogLevel`, `LoggerOf` and the kong CLI are library code and configuration. The model keeps only the fields a context carries. main's `loop` field is always "0", because its counter `i` is never advanced.
- `sync.Map` is a plain set, since each pool has a single writer. GetAll's order is any order.
- The pool's `float64` arithmetic is not modelled: the rate is an exact ratio of integers.
- `strconv.ParseFloat` is a parameter `parseFloat`. Float values are reals with no NaN, and float comparison is comparison of reals.
- Cases is a `nat`. Go's `make(chan int, n)` panics on a negative capacity.
- CtxAddKvs: requires an even number of arguments. Go reads `kvs[i+1]` for each pair and panics on an odd count.
- CsvMain.ConvertRecord: requires the record to be at least as wide as the title, since Go indexes `record[j]`. Its only caller has just checked the widths are equal.
- CsvMain.ExtractFields: requires every index to be a column of the row. Go panics otherwise.
- The `extract` command's row loop and csv writer are not modelled; only the index construction and the projection are. extract ignores the error of its header read. With no header, `ExtractFields` would then index an empty row, and the model does not state that case.
- The `encoding/csv` reader, its field-count check included, is abstracted into the sequence of read results. So are the separator choice (csv or tsv), `writeCsv`, `json.Marshal`, `openReadFile`/`openWriteFile` (csv/io.go) and writing the output. A command's output is the sequence of rows or maps it would write.
- CsvSort.Sort: its failure rule is conservative. In Go, `cmpField` exits on the first unconvertible key that a comparison reaches. The model fails the sort whenever two or more records are present and any record's key does not convert, with the records left as they were. With fewer than two records, no comparison happens and both agree.
- CsvSort.Sort: sort.Slice is an ideal stable insertion sort in the model. The Go library leaves the order of tied records unspecified, and its less function `cmp(i, j) <= 0` is not strict. The model proves a permutation ordered by the comparator, and no particular order of ties.
- hex/main.go is not part of this model: it wraps `encoding/hex` and has no logic of its own.
- Strings are Dafny strings, which are sequences of code points. Go strings are byte strings, and Go's `<` compares bytes. The two orders agree for valid UTF-8, which the model assumes. A csv field holding invalid UTF-8 cannot be represented.
- Orchestrator.Orchestrate: assumes Go 1.22 or later, where each iteration of the proxy loop has its own `proxyAddr`. Under earlier Go versions the goroutine's closure shares that variable, so a task could probe a later address.
