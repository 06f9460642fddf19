# RedisDB storage protocol, modelled in Dafny

`RedisDB` (in `RedisDB/RedisDB.py`) loads CSV rows into Redis and reads them back.
Its three operations are modelled here against an abstract key-value store.
Pandas, JSON and plotting are left outside the model.

- **Bulk load** (`upload_csv_to_redis`). `FLUSHALL` runs first, outside the `try`. Then the i-th
  record is `SET` under `record_<i>`, in order. The result is `True`, or `False` on a failure, with
  no rollback. A failing `FLUSHALL` raises to the caller.
- **Full scan** (`redis_data_to_dataframe`). Lists the keys, `GET`s each one, skips keys with no
  value and decodes the rest. A failed request or an undecodable value gives `None`. With no failed
  request, an empty store gives an empty result.
- **Recent fetch with categorical coding** (the data half of `heatmap_using_recent_data`). Sorts
  the keys in descending string order and keeps at most 50000 of them. Fetches those keys as the
  scan does. Then replaces each of the six categorical columns by its `Categorical` codes.

Modules:

- `Lex`: the order in which `sorted` puts the keys. The keys arrive as UTF-8 `bytes`, and their byte order is the code-point order of the decoded text.
- `RecordKeys`: `record_<i>` naming.
- `Codec`: records and their stored form.
- `KeyValueStore`: the `Store` class.
- `RecentKeys`: `sorted(..., reverse=True)[:50000]`.
- `Categorical`: category codes.
- `RedisDB`: the `RedisDB` class and the specification functions of its operations.

Each store request either takes effect or fails with a connection error and changes nothing. The
store picks which one nondeterministically. Each failed request is appended to the store's ghost log
`failed`. The contracts say exactly what each operation does when nothing fails, and what it leaves
behind when something does.
The JSON text is abstract. A stored `Value` is either `Encoded(record)` or `Foreign(bytes)`, and
`Foreign` bytes never decode. The only law used is `Decode(Encode(r)) == Some(r)`.

## Model

| member | source | states |
|---|---|---|
| `Lex.LessIrreflexive` | RedisDB/RedisDB.py:137 | no key sorts before itself |
| `Lex.LessTransitive` | RedisDB/RedisDB.py:137 | the string order used by `sorted` is transitive |
| `Lex.LessAsymmetric` | RedisDB/RedisDB.py:137 | two keys never sort before each other |
| `Lex.LessTotal` | RedisDB/RedisDB.py:137 | any two different keys are ordered one way or the other |
| `Lex.NotLessTransitive` | RedisDB/RedisDB.py:137 | "not below" is transitive, so a descending order is well defined |
| `Lex.LessCommonPrefix` | RedisDB/RedisDB.py:137 | the shared `record_` prefix does not affect how two keys compare |
| `RecordKeys.Digits` | RedisDB/RedisDB.py:70 | the index is written as a non-empty string of decimal digits |
| `RecordKeys.ParseDigitsOfDigits` | RedisDB/RedisDB.py:70 | reading the decimal digits back gives the index |
| `RecordKeys.RecordIndexOfKey` | RedisDB/RedisDB.py:68-70 | the index a key was written for can be recovered from the key |
| `RecordKeys.RecordKeyInjective` | RedisDB/RedisDB.py:68-70 | `record_i == record_j` exactly when `i == j`, so no write of a load overwrites another |
| `RecordKeys.NineOutranks` | RedisDB/RedisDB.py:137 | `record_9` sorts above every `record_j` with `j < 90`, `j != 9`, `record_10` included |
| `Codec.DecodeEncode` | RedisDB/RedisDB.py:69 | decoding the encoding of a record gives the record back |
| `KeyValueStore.ListingLength` | RedisDB/RedisDB.py:93 | a key listing has exactly as many entries as the store has keys |
| `KeyValueStore.Store.FlushAll` | RedisDB/RedisDB.py:60 | on success the store is empty; on failure it is unchanged and the failure is logged |
| `KeyValueStore.Store.Set` | RedisDB/RedisDB.py:70 | on success exactly `key` is bound to the value; on failure nothing changes and the failed write is logged |
| `KeyValueStore.Store.Get` | RedisDB/RedisDB.py:97 | a successful reply holds a value exactly when the key is stored, and that value is the stored one; a failure is logged |
| `KeyValueStore.Store.Keys` | RedisDB/RedisDB.py:96 | a successful reply lists every stored key once and nothing else, in no promised order; a failure is logged |
| `RecentKeys.Insert` | RedisDB/RedisDB.py:137 | inserting into a descending sequence keeps it descending and adds exactly one key |
| `RecentKeys.SortDescending` | RedisDB/RedisDB.py:137 | `sorted(keys, reverse=True)` is descending and a permutation of the keys |
| `RecentKeys.DescendingUnique` | RedisDB/RedisDB.py:137 | two descending orderings of the same keys are equal |
| `RecentKeys.SelectRecent` | RedisDB/RedisDB.py:137 | `min(50000, n)` keys, descending, drawn from the input, each at least as high as every dropped key |
| `RecentKeys.FirstSelectedIsHighest` | RedisDB/RedisDB.py:137 | the first selected key is not below any stored key |
| `RecentKeys.SelectionIgnoresListingOrder` | RedisDB/RedisDB.py:137 | the selection is the same whatever order the store lists its keys in |
| `Categorical.BeforeIrreflexive` | RedisDB/RedisDB.py:151 | no category sorts before itself |
| `Categorical.BeforeTransitive` | RedisDB/RedisDB.py:151 | the category order is transitive |
| `Categorical.BeforeAsymmetric` | RedisDB/RedisDB.py:151 | two categories never sort before each other |
| `Categorical.BeforeTotal` | RedisDB/RedisDB.py:151 | any two different non-missing values are ordered |
| `Categorical.AddCategory` | RedisDB/RedisDB.py:151 | adding a value keeps the categories sorted and without repeats, and adds exactly that value |
| `Categorical.Categories` | RedisDB/RedisDB.py:151 | the categories are sorted, without repeats, and are exactly the non-missing values of the column |
| `Categorical.Position` | RedisDB/RedisDB.py:152 | -1 exactly when the value is not a category, otherwise an index holding the value |
| `Categorical.Codes` | RedisDB/RedisDB.py:151-152 | one code per cell; -1 exactly for a missing cell; otherwise the index of the cell's value among the categories |
| `Categorical.CategoriesCount` | RedisDB/RedisDB.py:151 | the number of categories is the number of distinct non-missing values |
| `Categorical.CodesFollowValueOrder` | RedisDB/RedisDB.py:151-152 | cells share a code exactly when they hold the same value; a lower value gets a lower code |
| `Categorical.CodesCoverCategories` | RedisDB/RedisDB.py:151-152 | every code from 0 to the number of categories less one is used |
| `Categorical.SexExample` | RedisDB/RedisDB.py:149-152 | the column `[Male, Female]` is coded `[1, 0]` |
| `Categorical.CodedColumns` | RedisDB/RedisDB.py:149-152 | six coded columns when every categorical column exists; `None` when one is absent, and always `None` for no records |
| `RedisDB.LoadedMapContents` | RedisDB/RedisDB.py:60-70 | after loading n records the keys are exactly `record_0`..`record_{n-1}`, and `record_i` holds the encoding of record i |
| `RedisDB.NextKeyFresh` | RedisDB/RedisDB.py:68-70 | the next write of a load goes to a key not yet written |
| `RedisDB.DecodeEach` | RedisDB/RedisDB.py:96-101 | the fetch gives at most one record per key, and exactly one per key when every key is stored |
| `RedisDB.DecodeEachFails` | RedisDB/RedisDB.py:99-100 | one undecodable stored value makes the whole fetch `None` |
| `RedisDB.DecodeEachSucceeds` | RedisDB/RedisDB.py:96-101 | when every fetched stored value decodes, the fetch succeeds |
| `RedisDB.EmptyFetch` | RedisDB/RedisDB.py:138-143 | fetching keys none of which is stored gives no records |
| `RedisDB.DecodeEachAppend` | RedisDB/RedisDB.py:96-101 | fetching `a + b` is fetching `a` then `b` |
| `RedisDB.DecodeEachIgnoresOtherKeys` | RedisDB/RedisDB.py:96-101 | writing a key that is not fetched does not change the fetch |
| `RedisDB.SplitListing` | RedisDB/RedisDB.py:96 | removing one key from a listing leaves a listing of the other keys |
| `RedisDB.DecodeAround` | RedisDB/RedisDB.py:96-101 | a stored key adds its own record to what the other keys give |
| `RedisDB.LoadThenScan` | RedisDB/RedisDB.py:60-101 | whatever the listing order, scanning after a load returns the loaded records as a multiset |
| `RedisDB.RecentStartsAtNine` | RedisDB/RedisDB.py:137 | after loading 11 to 90 records the first recent key is `record_9`, not the last record's key |
| `RedisDB.RecentKeysStored` | RedisDB/RedisDB.py:137-139 | the recent keys are stored keys, and there are `min(50000, number of keys)` of them |
| `RedisDB.RecentTableShape` | RedisDB/RedisDB.py:137-152 | the heatmap data has six columns of `min(50000, number of keys)` codes each, and is `None` for an empty store |
| `RedisDB.EncodeCategoricals` | RedisDB/RedisDB.py:149-152 | the column loop computes the coded columns, or `None` at the first missing column |
| `RedisDB.RedisDB.constructor` | RedisDB/RedisDB.py:20-35 | the object uses the client it is given |
| `RedisDB.RedisDB.UploadCsvToRedis` | RedisDB/RedisDB.py:50-79 | with no failed request: `True` and exactly the loaded map for a parsed CSV (an empty one included), `False` and an empty store for an unreadable one; a failed flush propagates with the store unchanged; a failed write of record k gives `False` with exactly records 0..k-1 stored |
| `RedisDB.RedisDB.FetchRecords` | RedisDB/RedisDB.py:96-101 | with no failed request the result is the fetch of the keys; a failed `GET` of one of the keys gives `None`; an undecodable value forces `None` |
| `RedisDB.RedisDB.RedisDataToDataframe` | RedisDB/RedisDB.py:82-120 | a result is the fetch of some listing of all keys, one record per key; with no failed request it is present exactly when every stored value decodes, and an empty store gives an empty result |
| `RedisDB.RedisDB.HeatmapCodes` | RedisDB/RedisDB.py:123-152 | with no failed request the result is `RecentTable` of the store's listing; a result has six columns of `min(50000, number of keys)` codes; an empty store always gives `None` |

## Left out

- Reading the YAML configuration and building the Redis client (`load_config`, `__init__`) are
  file and network set-up. The constructor takes the store as a parameter.
- CSV parsing (`pd.read_csv`, `to_dict`) is not modelled. The load takes the parsed rows, or
  `None` when reading fails. Floating-point and boolean cells are not modelled: a cell is text,
  an integer or null.
- JSON and UTF-8 text are abstract, as described above. A `Value` is either the encoding of a record
  or bytes that do not decode. Text that `json.loads` accepts but `json.dumps` would not write (other
  spacing, other field order) is not represented. A stored JSON text that is valid but not an object
  is treated like any other undecodable value.
- `pd.DataFrame` construction is not modelled. A scan returns the sequence of records, and an empty
  sequence stands for the empty frame. Only the six categorical columns are modelled.
- The correlation matrix, the heatmap and `plt.show` are floating-point numerics and plotting.
- Progress printing and logging have no effect on state. The three `except` clauses of the scan
  all become `None`.
- `KeyValueStore.Store.Set`: a failed request is taken to change nothing. A write that is applied
  but whose reply is lost is not modelled.
- Concurrent clients are not modelled; there is a single writer. So a listed key always has a value
  when fetched, and the scan's skip branch never fires in the model.
- `FLUSHALL` clears every database on the server, not only the one the client is configured for.
  The model's store is that one database, so other databases are not modelled.
- `RedisDB/main.py` (connectivity `ping`, messages) has no logic of its own.
