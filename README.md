# predictables-flask: a verified model of its logic

predictables-flask is a Flask application skeleton. It has dataset I/O endpoints, user
registration and two SQLite set-up scripts. Most of it is routing and framework glue.
This project models the parts that carry logic of their own, and proves what they do.

- **Chunk planning** (`ChunkCount`): `get_chunk_count` returns `max(20, rows // 50000 + 1)`.
- **Chunk naming** (`ChunkNaming`): `get_json_chunk_filename`. It renders the chunk
  index one-based and the total as given. Both are passed through Python's `str` and
  `zfill(3)`, which are modelled as Python defines them: the sign comes first, then the
  zeros, and the text is never truncated.
- **Chunk conversion** (`JsonChunks`): `dataframe_to_json_chunks` and its skip check
  `_check_if_json_exists_already`.
  - A dataset is a sequence of rows of an unspecified type.
  - `DataFrame.to_json` is a function parameter about which nothing is assumed.
  - The working directory is a map from file name to contents. It is passed in, and the
    new map is returned.
  - The write loop is a method with a loop invariant. It is proved against a recursive
    specification of the directory after the writes.
- **Upload check** (`UploadDataset`): `allowed_file` and `ALLOWED_EXTENSIONS`.
- **Registration checks** (`UserModel`): the `_is_*` and `_does_*` helpers of `User`, the
  three `validate_*_before_adding_new_user` chains, and `to_dict`.
  - The users table is a sequence of rows in query order.
  - "Already exists" is `filter_by(...).first()` over that sequence.
  - The validators are functions of the table and their arguments, so they cannot change
    a user or the table.
- **SQLite scripts** (`DdlText`, `CreateNewDb`, `AddNewTableToDb`): the exact text of the
  two `CREATE TABLE` queries, the exists / `drop_existing` / prompt decision of
  `create_new_db`, and the early returns of `add_new_table_to_db`.
  - Whether the file exists, the typed answer and the success of each sqlite3 call are
    parameters.

`Text` holds Python's string operations that the above use: `lower`, `split` on one
character, `sep.join` and counting. `Wrappers` holds `Option`.

Two comments in `dataframe_to_json_chunks.py` promise more than its code does. The
model follows the code and proves the gap:

- The docstring at line 31 promises "a list of length `n_chunks`". The code can return
  more chunks, because it merges only once (`JsonChunks.ElevenRowsFourRequested`).
- The comment at line 40 says the code checks whether the JSON files already exist. The
  check looks at names one index past the written ones. So after a conversion that
  made exactly `n` chunks, starting without file `n + 1`, an identical second call
  converts and writes again (`JsonChunks.SecondCallSkipsIffMerged`).

## Model

| member | source | states |
|---|---|---|
| ChunkCount.GetChunkCount | predictables_flask/api/v1/io/src/get_chunk_count.py:19-21 | the count is at least 20 and at least `rows // 50000 + 1`, and it is one of the two, so it is their maximum |
| ChunkCount.BelowThresholdIsTwenty | predictables_flask/api/v1/io/src/get_chunk_count.py:19-21 | every row count below 950,000, zero included, gives exactly 20 |
| ChunkCount.AboveThresholdIsBlocks | predictables_flask/api/v1/io/src/get_chunk_count.py:19-21 | from 950,000 rows on, the count is `rows // 50000 + 1` |
| ChunkCount.Monotone | predictables_flask/api/v1/io/src/get_chunk_count.py:19-21 | more rows never give fewer chunks |
| ChunkCount.StepAboveThreshold | predictables_flask/api/v1/io/src/get_chunk_count.py:19-21 | from 950,000 rows on, adding 50,000 rows adds exactly one chunk |
| ChunkCount.TwentyExactlyBelowOneMillion | predictables_flask/api/v1/io/src/get_chunk_count.py:19-21 | the count is exactly 20 if and only if there are fewer than 1,000,000 rows |
| ChunkCount.Examples | predictables_flask/api/v1/io/src/get_chunk_count.py:19-21 | 0 rows give 20, 949,999 rows give 20, 1,000,000 rows give 21 |
| ChunkNaming.IntToString | predictables_flask/api/v1/io/src/get_json_chunk_filename.py:19 | Python's `str` of an integer: a `-` for negative numbers, then the digits of the magnitude; characterised by `NatDigits` and `DecimalValueOfDigits` |
| ChunkNaming.ZFill | predictables_flask/api/v1/io/src/get_json_chunk_filename.py:19 | Python's `zfill`: zeros after any sign up to the width, never truncating; characterised by `Pad3OfNat` and `Pad3Examples` |
| ChunkNaming.Pad3 | predictables_flask/api/v1/io/src/get_json_chunk_filename.py:19 | `str(x).zfill(3)`; characterised by `Pad3OfNat`, `Pad3Injective` and `Pad3Examples` |
| ChunkNaming.GetJsonChunkFilename | predictables_flask/api/v1/io/src/get_json_chunk_filename.py:19 | `<name>_<i + 1 padded>_of_<total padded>.json`; characterised by `FilenameShape`, `FilenameInjective` and the filename examples |
| ChunkNaming.NatDigits | predictables_flask/api/v1/io/src/get_json_chunk_filename.py:19 | `str` of a non-negative number is at least one decimal digit, with a leading `0` only for zero |
| ChunkNaming.DecimalValueOfDigits | predictables_flask/api/v1/io/src/get_json_chunk_filename.py:19 | reading the digits of `str(x)` back gives `x` |
| ChunkNaming.Pad3OfNat | predictables_flask/api/v1/io/src/get_json_chunk_filename.py:19 | `str(x).zfill(3)` for `x >= 0` is zeros followed by all of `x`'s digits; its length is the larger of 3 and the digit count, so it is never truncated; it reads back as `x` |
| ChunkNaming.Pad3Injective | predictables_flask/api/v1/io/src/get_json_chunk_filename.py:19 | two non-negative numbers with the same padded text are equal |
| ChunkNaming.NatDigitsShort | predictables_flask/api/v1/io/src/get_json_chunk_filename.py:19 | a number has at most three digits exactly when it is below 1000, so only those numbers get padded |
| ChunkNaming.Pad3Examples | predictables_flask/api/v1/io/src/get_json_chunk_filename.py:19 | 1 gives `001`, 20 gives `020`, 1000 stays `1000`, and -5 gives `-05` (sign before zeros) |
| ChunkNaming.FilenameExamples | predictables_flask/api/v1/io/src/dataframe_to_json_chunks.py:26 | `("chunk", 0, 20)` gives `chunk_001_of_020.json`, and `("chunk", 1, 20)` gives `chunk_002_of_020.json` |
| ChunkNaming.LastFilenameExample | predictables_flask/api/v1/io/src/get_json_chunk_filename.py:19 | `("iris", 19, 20)` gives `iris_020_of_020.json`; the total is rendered as given, not plus one |
| ChunkNaming.FilenameShape | predictables_flask/api/v1/io/src/get_json_chunk_filename.py:19 | every name starts with the dataset name and `_` and ends with `.json` |
| ChunkNaming.FilenameInjective | predictables_flask/api/v1/io/src/get_json_chunk_filename.py:19 | for one dataset name and total, distinct indices from -1 up give distinct names |
| JsonChunks.ResolveName | predictables_flask/api/v1/io/src/dataframe_to_json_chunks.py:33-35 | a missing dataset name becomes `chunk`, a given one is kept; its use is stated by `DataframeToJsonChunks` |
| JsonChunks.Slices | predictables_flask/api/v1/io/src/dataframe_to_json_chunks.py:51 | there are no slices exactly when there are no rows; every slice has between 1 and `size` rows; every slice but the last has exactly `size` rows |
| JsonChunks.SliceAt | predictables_flask/api/v1/io/src/dataframe_to_json_chunks.py:51 | slice `k` is rows `k * size` up to `k * size + size`, clipped to the end, as in the comprehension `df.iloc[i : i + chunk_size]` |
| JsonChunks.SliceCount | predictables_flask/api/v1/io/src/dataframe_to_json_chunks.py:51 | with `m` slices, `(m - 1) * size < len(df) <= m * size` |
| JsonChunks.SlicesConcat | predictables_flask/api/v1/io/src/dataframe_to_json_chunks.py:51 | the slices, concatenated in order, are the rows |
| JsonChunks.SliceCountAtLeast | predictables_flask/api/v1/io/src/dataframe_to_json_chunks.py:38-51 | with `n = min(n_chunks, len(df)) >= 1`, the size `len(df) // n` is at least 1 and there are at least `n` slices |
| JsonChunks.ChunkRows | predictables_flask/api/v1/io/src/dataframe_to_json_chunks.py:48-56 | slice by `len(df) // n`, then merge the last two slices once when there are more than `n`; characterised by `ChunkRowsConcat`, `ChunkRowsCount`, `ChunkRowsSizes` and `ChunkRowsMerge` |
| JsonChunks.ChunkRowsConcat | predictables_flask/api/v1/io/src/dataframe_to_json_chunks.py:51-56 | the chunks, concatenated in order, are exactly the input rows: nothing lost, duplicated or reordered |
| JsonChunks.ChunkRowsCount | predictables_flask/api/v1/io/src/dataframe_to_json_chunks.py:51-56 | at least `n` chunks come back, and exactly `n` only when slicing gave at most `n + 1` slices |
| JsonChunks.ChunkRowsSizes | predictables_flask/api/v1/io/src/dataframe_to_json_chunks.py:48-56 | every chunk is non-empty; all chunks but the last have exactly `len(df) // n` rows; the last has at most twice that many |
| JsonChunks.ChunkRowsMerge | predictables_flask/api/v1/io/src/dataframe_to_json_chunks.py:54-56 | after a merge, the earlier chunks are the slices unchanged, and the last chunk is the second-to-last slice followed by the last slice |
| JsonChunks.EvenSplit | predictables_flask/api/v1/io/src/dataframe_to_json_chunks.py:48-56 | when `n` divides the row count, there are exactly `n` chunks |
| JsonChunks.ElevenRowsFourRequested | predictables_flask/api/v1/io/src/dataframe_to_json_chunks.py:48-56 | 11 rows with 4 requested give 6 slices and 5 chunks |
| JsonChunks.HundredRowsSevenRequested | predictables_flask/api/v1/io/src/dataframe_to_json_chunks.py:48-56 | 100 rows with 7 requested give 8 slices and 7 chunks, the last with 16 rows |
| JsonChunks.Serialize | predictables_flask/api/v1/io/src/dataframe_to_json_chunks.py:59 | one JSON string per chunk, in order; string `k` is `to_json` of chunk `k` |
| JsonChunks.CheckedNames | predictables_flask/api/v1/io/src/dataframe_to_json_chunks.py:90-93 | for `n >= 1` the check builds `n` names, name `k` for index `k + 1`; for `n <= 0` it builds none |
| JsonChunks.ExistsAlready | predictables_flask/api/v1/io/src/dataframe_to_json_chunks.py:90-96 | every checked name is a file of the directory; characterised by `SkipCheckOffByOne` and `NothingToCheck` |
| JsonChunks.SkipCheckOffByOne | predictables_flask/api/v1/io/src/dataframe_to_json_chunks.py:90-96 | the file of index 0 is never checked; the checked name for index `n` is none of the names for indices 0 to `n - 1`; the check passes exactly when the files for indices 1 to `n` all exist |
| JsonChunks.NothingToCheck | predictables_flask/api/v1/io/src/dataframe_to_json_chunks.py:90-96 | for `n <= 0` nothing is checked and `all([])` passes |
| JsonChunks.AfterWrites | predictables_flask/api/v1/io/src/dataframe_to_json_chunks.py:62-66 | the directory after writing each JSON string in order; characterised by `AfterWritesKeys`, `AfterWritesValues` and `AfterWritesOthers` |
| JsonChunks.AfterWritesKeys | predictables_flask/api/v1/io/src/dataframe_to_json_chunks.py:62-66 | after the writes, the files are the old ones plus the names for indices 0 to `len(json_chunks) - 1` |
| JsonChunks.AfterWritesValues | predictables_flask/api/v1/io/src/dataframe_to_json_chunks.py:62-66 | the file for index `i` holds JSON string `i` verbatim |
| JsonChunks.AfterWritesOthers | predictables_flask/api/v1/io/src/dataframe_to_json_chunks.py:62-66 | every other file keeps its contents |
| JsonChunks.WriteChunks | predictables_flask/api/v1/io/src/dataframe_to_json_chunks.py:63-66 | the loop leaves the directory as specified: old files plus one file per chunk, chunk `i` under the name for index `i` and total `n`, all other files unchanged |
| JsonChunks.DataframeToJsonChunks | predictables_flask/api/v1/io/src/dataframe_to_json_chunks.py:33-68 | with `n = min(n_chunks, len(df))`, the result is `None` exactly when the skip check passes; `n <= 0` always gives `None`; `None` leaves the directory unchanged; otherwise the result is the serialised chunks, written only when `write_json` is true |
| JsonChunks.SecondCallRewrites | predictables_flask/api/v1/io/src/dataframe_to_json_chunks.py:90-93 | as written: after any conversion that made exactly `n` chunks, starting without file `n + 1`, the skip check fails, so an identical second call converts and writes again |
| JsonChunks.MergedSecondCallSkips | predictables_flask/api/v1/io/src/dataframe_to_json_chunks.py:54-66 | as written: when more than `n` chunks came back, chunk `n` is written too, so the skip check passes and a second call skips |
| JsonChunks.PreexistingLastFileSkips | predictables_flask/api/v1/io/src/dataframe_to_json_chunks.py:62-96 | as written: when file `n + 1` already existed, the files written by one call make the skip check pass, so a second call skips whatever the chunk count |
| JsonChunks.SecondCallSkipsIffMerged | predictables_flask/api/v1/io/src/dataframe_to_json_chunks.py:54-96 | as written, starting without file `n + 1`: a second identical call skips if and only if more than `n` chunks came back |
| JsonChunks.ChunkRowsIntendedShape | predictables_flask/api/v1/io/src/dataframe_to_json_chunks.py:28-31 | corrected: exactly `n` chunks, all but the last of `len(df) // n` rows, and the last with at least that many |
| JsonChunks.ChunkRowsIntendedConcat | predictables_flask/api/v1/io/src/dataframe_to_json_chunks.py:51-56 | the corrected chunks also concatenate back to the input rows |
| JsonChunks.IntendedSecondCallSkips | predictables_flask/api/v1/io/src/dataframe_to_json_chunks.py:90-93 | corrected: a check over the written names passes after one conversion, so a second call skips |
| JsonChunks.DataframeToJsonChunksIntended | predictables_flask/api/v1/io/src/dataframe_to_json_chunks.py:8-68 | the conversion with both corrections returns exactly `n` chunks and skips exactly when the files it would write exist |
| Text.Split | predictables_flask/models/User.py:71 | `s.split(c)` has at least one part, and no part contains `c` |
| Text.SplitLength | predictables_flask/models/User.py:71 | `len(s.split(c))` is one more than the number of `c` in `s` |
| Text.Join | predictables_flask/models/src/create_new_db.py:85 | Python's `sep.join(parts)`, used by both scripts' column clauses; characterised by `JoinSplit`, `JoinLength` and `JoinNeighbours` |
| Text.JoinLength | predictables_flask/models/src/add_new_table_to_db.py:65 | the joined text is as long as all parts plus one separator per pair of neighbours |
| Text.JoinNeighbours | predictables_flask/models/src/add_new_table_to_db.py:65 | each two neighbouring parts appear in the joined text with exactly one separator between them |
| Text.JoinSplit | predictables_flask/models/User.py:71 | joining the parts of `s.split(c)` with `c` gives `s` back |
| Text.Lower | predictables_flask/api/v1/io/src/upload_dataset.py:35 | `lower` keeps the length and lower-cases each character on its own |
| UploadDataset.AfterLastDot | predictables_flask/api/v1/io/src/upload_dataset.py:35 | `rsplit(".", 1)[1]` is a suffix of the name with no `.`, and a `.` comes right before it |
| UploadDataset.AfterLastDotUnique | predictables_flask/api/v1/io/src/upload_dataset.py:35 | any `.` with no later `.` marks that suffix |
| UploadDataset.AllowedFile | predictables_flask/api/v1/io/src/upload_dataset.py:34-35 | `"." in filename and filename.rsplit(".", 1)[1].lower() in ALLOWED_EXTENSIONS`; characterised by `AllowedFileMeaning` and `CaseInsensitive` |
| UploadDataset.AllowedFileMeaning | predictables_flask/api/v1/io/src/upload_dataset.py:34-35 | a name is accepted exactly when some `.` has no later `.` and the lower-cased text after it is `csv`, `parquet`, `json` or `xlsx` |
| UploadDataset.NoDotRejected | predictables_flask/api/v1/io/src/upload_dataset.py:35 | a name without a `.` is rejected |
| UploadDataset.AcceptedExamples | predictables_flask/api/v1/io/src/upload_dataset.py:34-35 | `DATA.CSV`, `a.tar.csv` and `.csv` are accepted |
| UploadDataset.RejectedExamples | predictables_flask/api/v1/io/src/upload_dataset.py:34-35 | `a.csv.gz`, `file.` and `data` are rejected |
| UploadDataset.AfterLastDotLower | predictables_flask/api/v1/io/src/upload_dataset.py:35 | lower-casing the name and taking its extension commute |
| UploadDataset.CaseInsensitive | predictables_flask/api/v1/io/src/upload_dataset.py:35 | names that lower-case to the same text are accepted or rejected together |
| UserModel.FirstWith | predictables_flask/models/User.py:36-59 | `filter_by(<column>=value).first()` for the username and email columns: the result is `None` exactly when no row holds the value, and otherwise a row that holds it |
| UserModel.FirstWithIsEarliest | predictables_flask/models/User.py:36-59 | the row found is the earliest one that holds the value |
| UserModel.IsUsernameEmpty | predictables_flask/models/User.py:42-46 | `username == ""`; its role in the validator is stated by `ValidateUsernameMeaning` |
| UserModel.IsEmailEmpty | predictables_flask/models/User.py:48-52 | `email == ""`; its role in the validator is stated by `ValidateEmailMeaning` |
| UserModel.DoesEmailIncludeAtSymbol | predictables_flask/models/User.py:61-65 | `"@" in email`; implied by the format check (`FormatImpliesAtSymbol`), so redundant in the validator (`AtCheckIsRedundant`) |
| UserModel.IsPasswordEmpty | predictables_flask/models/User.py:154-158 | `password == ""`; subsumed by the length check (`EmptyCheckIsRedundant`) |
| UserModel.IsPasswordAtLeast8CharactersLong | predictables_flask/models/User.py:184-188 | `len(password) >= 8`; its role in the validator is stated by `ValidatePasswordMeaning` |
| UserModel.DoesUserAlreadyExist | predictables_flask/models/User.py:36-40 | `first() is not None` for the username; characterised by `ValidateUsernameMeaning` |
| UserModel.DoesEmailAlreadyExist | predictables_flask/models/User.py:54-59 | the flag is true exactly when some row has the email, and exactly when a row comes back, and that row has the email |
| UserModel.DoesEmailFollowTextAtTextDotTextFormat | predictables_flask/models/User.py:67-71 | both splits give two parts; characterised by `FormatMeansOneAtOneDot` |
| UserModel.FormatMeansOneAtOneDot | predictables_flask/models/User.py:67-71 | the format check passes exactly when the email has one `@` and one `.`, anywhere, parts possibly empty |
| UserModel.FormatImpliesAtSymbol | predictables_flask/models/User.py:61-71 | an email that passes the format check contains `@` |
| UserModel.DotBeforeAtPasses | predictables_flask/models/User.py:71 | `a.b@c` passes the format check |
| UserModel.EmptyPartsPass | predictables_flask/models/User.py:71 | `@.` passes the format check |
| UserModel.TwoDotsFail | predictables_flask/models/User.py:71 | `a@b.co.uk` fails the format check |
| UserModel.ValidateUsername | predictables_flask/models/User.py:95-103 | the if-chain of the validator; characterised by `ValidateUsernameMeaning` |
| UserModel.ValidateUsernameMeaning | predictables_flask/models/User.py:95-103 | a username is valid exactly when it is non-empty and no row has it |
| UserModel.ValidateEmail | predictables_flask/models/User.py:130-151 | the if-chain of the validator; characterised by `ValidateEmailMeaning` and `AtCheckIsRedundant` |
| UserModel.ValidateEmailMeaning | predictables_flask/models/User.py:130-151 | an email is valid exactly when it is non-empty, no row has it, and it has exactly one `@` and one `.` |
| UserModel.AtCheckIsRedundant | predictables_flask/models/User.py:140-147 | removing the `@` branch never changes the verdict |
| UserModel.ValidatePassword | predictables_flask/models/User.py:227-262 | the if-chain of the validator; characterised by `ValidatePasswordMeaning` and `EmptyCheckIsRedundant` |
| UserModel.ValidatePasswordMeaning | predictables_flask/models/User.py:227-262 | a password is valid exactly when it has at least 8 characters and differs from the username, the email, the first name and the last name |
| UserModel.EmptyCheckIsRedundant | predictables_flask/models/User.py:227-258 | removing the emptiness branch never changes the verdict |
| UserModel.Attr | predictables_flask/models/User.py:28-31 | `getattr` of `username` and `email` gives those strings |
| UserModel.ToDict | predictables_flask/models/User.py:287-288 | the keys are exactly `id`, `username` and `email`; `password_hash` is never a key; each value is that column's value |
| UserModel.ToDictIgnoresPasswordHash | predictables_flask/models/User.py:287-288 | changing the password hash never changes the dictionary |
| DdlText.ColumnFragments | predictables_flask/models/src/create_new_db.py:85 | one fragment per column, in order, fragment `i` being `, <column i> <type i>`; only the first `len(columns)` types are read; with fewer types than columns the comprehension raises `IndexError`, which the outcome functions model |
| DdlText.TableQuery | predictables_flask/models/src/create_new_db.py:83-86 | the triple-quoted template; characterised by `TableQueryLayout` and `TableQueryKeyword` |
| DdlText.TableQueryLayout | predictables_flask/models/src/create_new_db.py:83-86 | the template starts with its header, ends with `);`, and puts the primary-key clause before the column clause |
| DdlText.TableQueryKeyword | predictables_flask/models/src/create_new_db.py:83 | the rest of the query text does not depend on the leading keyword |
| CreateNewDb.CreateTableQuery | predictables_flask/models/src/create_new_db.py:83-86 | the template with `CREATE TABLE` and the fragments joined by one space; characterised by `CreateTableQueryLayout` and `CreateColumnsAdjacent` |
| CreateNewDb.CreateTableQueryLayout | predictables_flask/models/src/create_new_db.py:83-86 | the query starts `CREATE TABLE <name> (` with no `IF NOT EXISTS`, ends with `);`, and the primary-key clause precedes the space-joined column fragments |
| CreateNewDb.CreateColumnsAdjacent | predictables_flask/models/src/create_new_db.py:85 | neighbouring column fragments appear in order, after the primary key, separated by one space |
| CreateNewDb.CreateWithoutColumns | predictables_flask/models/src/create_new_db.py:83-86 | with no columns, the query defines only the primary key |
| CreateNewDb.CreateIgnoresExtraTypes | predictables_flask/models/src/create_new_db.py:85 | types beyond the number of columns do not change the query |
| CreateNewDb.CreateColumnClauseExample | predictables_flask/models/src/create_new_db.py:85 | columns `name`, `age` with types `TEXT`, `INTEGER` give `, name TEXT , age INTEGER` |
| CreateNewDb.Decide | predictables_flask/models/src/create_new_db.py:52-69 | what happens before connecting; characterised by `DecideMeaning` and `AnswerReadOnlyWhenPrompted` |
| CreateNewDb.ConfirmingAnswers | predictables_flask/models/src/create_new_db.py:58-63 | an answer lower-cases to `y` exactly when it is `y` or `Y` |
| CreateNewDb.DecideMeaning | predictables_flask/models/src/create_new_db.py:52-69 | the file is removed exactly when it exists and either dropping was asked for or the answer confirmed; the call returns early exactly when the file exists, dropping was not asked for, and the answer did not confirm; without a file it connects straight away |
| CreateNewDb.AnswerReadOnlyWhenPrompted | predictables_flask/models/src/create_new_db.py:52-68 | when there is no prompt, the answer does not change the decision |
| CreateNewDb.CreateNewDbOutcome | predictables_flask/models/src/create_new_db.py:52-102 | the call declines exactly when the decision is to return early; it creates the table exactly when it got past the prompt and every call succeeded, and then it has removed the old file exactly when one existed and has run the space-joined query; a failed commit returns instead of raising; a failed remove, connect or execute, or fewer column types than columns (an `IndexError` at line 85), raises |
| AddNewTableToDb.AddTableQuery | predictables_flask/models/src/add_new_table_to_db.py:63-66 | the template with `CREATE TABLE IF NOT EXISTS` and the fragments joined by `", "`; characterised by `AddTableQueryLayout`, `AddColumnsAdjacent` and `AddDoubleComma` |
| AddNewTableToDb.AddTableQueryLayout | predictables_flask/models/src/add_new_table_to_db.py:63-66 | the query starts `CREATE TABLE IF NOT EXISTS <name> (`, ends with `);`, and the primary-key clause precedes the column clause |
| AddNewTableToDb.AddColumnsAdjacent | predictables_flask/models/src/add_new_table_to_db.py:65 | neighbouring column fragments appear in order, after the primary key, separated by `", "` |
| AddNewTableToDb.AddDoubleComma | predictables_flask/models/src/add_new_table_to_db.py:65 | as written: with two or more columns the query contains `, , ` |
| AddNewTableToDb.AddWithoutColumns | predictables_flask/models/src/add_new_table_to_db.py:63-66 | with no columns, the query defines only the primary key |
| AddNewTableToDb.AddIgnoresExtraTypes | predictables_flask/models/src/add_new_table_to_db.py:65 | types beyond the number of columns do not change the query |
| AddNewTableToDb.AgreesWithCreateUpToOneColumn | predictables_flask/models/src/add_new_table_to_db.py:63-66 | with at most one column, no separator appears, and the two scripts' queries differ only by `IF NOT EXISTS` |
| AddNewTableToDb.LongerThanCreate | predictables_flask/models/src/add_new_table_to_db.py:65 | with at least one column, the query is 14 characters plus one per separator longer than `create_new_db`'s |
| AddNewTableToDb.AddNewTableToDbOutcome | predictables_flask/models/src/add_new_table_to_db.py:46-83 | a missing file returns before connecting; each failed connect, execute or commit is its own plain return; fewer column types than columns raises `IndexError` at line 65, outside any `try`; the table is added exactly when every call succeeds and every column has a type, and then the executed query is the `", "`-joined one |
| AddNewTableToDb.IntendedMatchesCreate | predictables_flask/models/src/add_new_table_to_db.py:63-66 | corrected: with the fragments joined by one space, the query is `create_new_db`'s query with `IF NOT EXISTS` added, for every column list |

## Left out

- Flask routes, blueprints and `app.py`, including the upload route handlers in `upload_dataset.py`. They are framework wiring.
- pandas. `to_json` is an arbitrary function parameter. `DataFrame.append` is sequence concatenation, and `iloc` slicing is sequence slicing.
- Real file I/O. `os.path.exists` is membership in the directory map, and `open(...).write` is a map update. A write that fails is not modelled, so the write loop always completes.
- `print` and logging calls. They only report.
- JsonChunks.Serialize: nothing is assumed about `to_json`, so nothing is proved about the JSON text itself.
- `ChunkCount.GetChunkCount` takes the row count instead of the DataFrame. `len(df)` is the only thing the function reads.
- `User.__repr__`, `set_password`, `check_password` and the CRUD and `get_by_*` methods. They are hashing and SQLAlchemy session calls.
- UserModel.FirstWith: `first()` is taken to return rows in table order. The database's actual row order is not modelled. The `unique` and `String(80)` column constraints are not enforced.
- Text.Lower: only the ASCII letters `A` to `Z` are lower-cased. No non-ASCII character lower-cases to text containing `csv`, `parquet`, `json`, `xlsx` or `y`, so `allowed_file` and the prompt answer are unaffected.
- sqlite3 itself: `connect`, `execute` and `commit` are success flags. `commit` and `close` share one `try`, so `commitOk` covers both. `os.remove` is a success flag, and `input` is the answer string.
- The messages of the `raise f"..."` statements in `create_new_db`. Raising a string is itself an error in Python 3, so every such statement is a plain `Raised` outcome.
- `send_data_chunks`, login, password reset, register, logout, configuration, logging set-up and the tests. They are network fan-out, stubs or plumbing.

## Findings

| source | as written | input that shows it | evidently intended | confidence | as-written member | corrected member |
|---|---|---|---|---|---|---|
| predictables_flask/api/v1/io/src/dataframe_to_json_chunks.py:90-93 | the skip check asks for indices 1 to `n` (files 002 to `n + 1`); the write loop writes indices 0 to `len(json_chunks) - 1`, so when exactly `n` chunks come back file `n + 1` is never written | 20 rows, `n_chunks = 20`, empty directory: the first call writes `chunk_001_of_020.json` to `chunk_020_of_020.json`; the second call looks for `chunk_021_of_020.json`, does not find it, and converts and writes everything again | check the names the loop writes, indices 0 to `n - 1` | not executed | JsonChunks.SecondCallRewrites | JsonChunks.IntendedSecondCallSkips |
| predictables_flask/api/v1/io/src/dataframe_to_json_chunks.py:54-56 | only the last two slices are merged, once | 11 rows, `n_chunks = 4`: slices of 2 rows, 6 slices, 5 chunks returned | exactly `n_chunks` chunks, as the docstring says | not executed | JsonChunks.ElevenRowsFourRequested | JsonChunks.ChunkRowsIntendedShape |
| predictables_flask/models/src/add_new_table_to_db.py:65 | fragments that already start with `, ` are joined with `", "` | columns `a`, `b` with types `TEXT`, `INT`: the column line reads `, a TEXT, , b INT`, an empty column definition | join with one space, as `create_new_db` does | not executed | AddNewTableToDb.AddDoubleComma | AddNewTableToDb.IntendedMatchesCreate |
