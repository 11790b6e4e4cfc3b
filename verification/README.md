# A verified model of the MiniSQL engine

MiniSQL keeps a table in one log-structured file: a 32-byte header, then framed records
`[length][type][column offsets][key][values]`. INSERT appends frames, DELETE overwrites one type byte (a
tombstone), UPDATE marks the matching records and appends their replacements, and a threshold test triggers a
compaction. Beside the file the engine keeps an index from primary keys to the position of the type byte, and a
count of deletions. This project models that engine in Dafny and proves what it does.

How the model is built:

- `Text`, `Frames`: strings, 64-bit fields, frames, the bytes of a file that holds given records.
- `TableFiles`, `Scanners`, `Serializer`, `Compactor`: the open file with the one position that reads and writes
  share; the scanners, the serializer and the compaction copier with the loops and seeks of the program. Each
  scanner is specified at one frame boundary: which record comes next, what is answered, where it lands.
- `Log`: the records as a log (live rows, marking, compaction) and the index that belongs to them.
- `Schemas`, `Conditions`, `Like`, `Normalizer`, `Validator`: column modifiers, WHERE conditions, LIKE, and the
  checks and rewriting that precede the handlers.
- `Statements`: `Step` says what each statement does to (log, index, counter) and `Run` what a list of them does.
- `Engines`: the class `Engine` with the statement handlers, each proved to take exactly the step of `Statements`
  while the file keeps holding the log byte for byte.
- `CompactionGate`: the estimate and the exact ratio at the end of DELETE and UPDATE, and the bound on the counter.
- `AccessPaths`: conditions on the key, answered through the index or by the scan.
- `Runs`: `TableStep` and `TableRun` give the statements on a plain list of rows, without log, index, counter,
  tombstones or restarts; runs of the engine are proved to answer the same.
- `Agreement`: when the index kept statement by statement is the one a scan of the file would build.
- `Space`: how many tombstones a file can hold, within a session and across restarts.
- `Laws`: laws across operations, and exact conditions of those that do not hold of every input.
- `Metadata`: the schema file, its printer and its reader.
- `Outcomes`: what each statement accepts and answers, spelled out on the statement, the schema and the rows.
- `SmallTable`, `Examples`: runs on a one-column table, followed byte by byte.
- `FileFormat`: the bytes of the file in numbers.
- `Users`: the example session of the repository's README, with its answers.

A C++ `char` is one byte and is the model's `char`. The bytes of a column-offset entry that are padding are
written as zeros, and copied as zeros by the compactor. Reads inside a well-formed file succeed, so the branches
that report an I/O error are in the code and are proved not to be taken. An exception inside a statement is caught
by the command-line driver (`src/CLI-driver/src/runcli.cpp:91-99`): the statement ends as `Aborted` and the session
goes on.

## What does not hold of every input

The code is modelled as it is. For each of these there is a lemma with the exact condition, and an input.

- A key spelled in quotes is checked for uniqueness with its quotes and stored without them, so the same key can be
  stored twice (`Validator.UniquenessCheckExact`, `Laws.QuotedKeyIsStoredTwice`, `Validator.QuotedKeyExample`). An
  INSERT keeps the keys of a table distinct if and only if those it stores are new (`Runs.InsertKeepsDistinct`); bare
  ones are (`Runs.BareKeysAreNew`). UPDATE writes keys back without outer quotes, which can make two keys equal;
  `Laws.UpdatesKeepDistinct` says on exactly which tables (`Laws.KeysMeetExample`). DELETE never does.
- A run answers as the plain table does as long as the keys of the plain table are distinct before each statement
  (`Runs.RunRefinesTable`), however they are spelled. From a clean state that is so exactly while the live keys of the
  log are unique (`Agreement.UniqueIsDistinct`). Once a key is there twice:
  - A statement with `key = literal` that goes through the index does what the scan would do if and only if no other
    live row has the key (`AccessPaths.IndexedDeleteIsScan`, `AccessPaths.IndexedSelectIsScan`,
    `Examples.PathsExample`).
  - Such a DELETE takes the key out of the index although another row has it (`Log.EraseKeepsIndex`,
    `Agreement.StepKeepsComplete`), and the index can differ from a rebuilt one although the live keys are unique
    again (`Examples.TwinExample`). While they have been unique all along it does not (`Agreement.UniqueRunsAgree`).
  - The exact ratio can decline where the estimate is reached (`CompactionGate.GateDeclines`,
    `Examples.DeclineExample`); with unique keys it does not (`Agreement.RunNeverDeclines`).
- The handlers take quotes off a key literal that the validators have already found in the index, and fail if the key
  is not there without them. No DELETE and no SELECT is aborted in this way if and only if every key of the index is
  there unquoted too (`Laws.DeletesNeverMiss`, `Laws.SelectsNeverMiss`, `Examples.MissExample`).
- `SELECT ... WHERE key = 'literal'` is refused although the row is there (`Laws.SelectByKeyNeedsBareLiteral`,
  `Laws.SelectByKeyExample`).
- DELETE takes quotes off its literal once more than SELECT and UPDATE do (`Laws.DeleteStripsTwice`,
  `Laws.StripsTwiceExample`).
- UPDATE takes outer quotes off values that it keeps (`Laws.UpdateIsExact`, `Laws.UpdateUnquotesExample`).
- The readers expect the key to be the first column; DELETE does not (`Serializer.ReadersNeedKeyFirst`,
  `Laws.StoredRowsReadBack`, `Statements.PlacedFirst`, `Serializer.SecondColumnKeyExample`).
- `.` does not match line ends, so LIKE wildcards do not either (`Like.LikeTranslationExact`, `Like.TwoLinesExample`).
- A line end in a modifier, a comma in the first DEFAULT literal and a keyword between the commas of a later one do
  not survive a restart (`Metadata.MetadataRoundTrip`, `Metadata.CommaDefaultExample`,
  `Metadata.StrayKeywordExample`).
- The counter of deletions is lost by a restart. Within a session, whatever its keys, the tombstones beyond those not
  counted at its start are bounded (`Space.SpaceBound`); a restart makes every tombstone one that is not counted (`Space.RestartCounts`),
  and rounds of insert, delete and restart leave any number of them beside one live row
  (`Space.RestartsBreakTheBound`).
- A DEFAULT modifier without a value makes an INSERT that needs it stop with an exception after the rows before it
  were written (`Laws.InsertsComplete`, `Laws.HalfAnInsertExample`); the plain table of `Runs.TableStep` has the same
  answer.

Two points where the repository's own text differs from its code: README.md:164 allows 256 columns, the code stops
the program at the 256th (`Schemas.InitializeColumnEncodingMap`); README.md:26 speaks of the ratio of tombstones to
live records, the code divides by all records (`Compactor.CalculateTombstoneRatio`).

## Model

| member | source | states |
|---|---|---|
| `Text.Strip` | src/auxiliary/utils/string_utils.cpp:38-53 | one matching pair of outer quotes is taken off; the string stays as it is exactly when it has none |
| `Text.StripMeans` | src/auxiliary/utils/string_utils.cpp:38-53 | a pair of single or of double quotes around any text is taken off, and nothing else |
| `Text.SpaceCodes` | src/auxiliary/utils/string_utils.cpp:6-20 | white space is the characters 9 to 13 and the blank |
| `Text.TrimLeftMeans` | src/auxiliary/utils/string_utils.cpp:6-20 | all white space at the start is cut, and nothing else |
| `Text.TrimRightMeans` | src/auxiliary/utils/string_utils.cpp:6-20 | all white space at the end is cut, and nothing else |
| `Frames.U64RoundTrip` | src/DBEngine/filehandler/public_api.hpp:42-48 | a 64-bit field is read back as the number written |
| `Frames.LiteralAt` | src/DBEngine/filehandler/handlers/handler-utils.cpp:3-9 | each value of a run of values stands behind the values before it |
| `Frames.OffsetEntryAt` | src/DBEngine/filehandler/serialization/normalized-record.cpp:55-67 | entry j of the offset region holds the code of its column and the distance of the value from the end of the key |
| `Frames.OffsetFits` | src/DBEngine/filehandler/serialization/normalized-record.cpp:59-67 | an offset leads to a value inside the same record |
| `Frames.FrameParts` | src/auxiliary/types/types.hpp:78-85 | where length, type byte, offset region and values of a frame stand |
| `Frames.FrameAt` | src/DBEngine/filehandler/serialization/normalized-record.cpp:73-86 | frame k of a file stands where the frames before it end, and the last frame ends the file |
| `Frames.AppendFrame` | src/DBEngine/filehandler/serialization/normalized-record.cpp:73-86 | appending the bytes of a frame appends one record and moves nothing |
| `Frames.TombstoneWriteIsLocal` | src/DBEngine/filehandler/handlers/delete.cpp:125-133 | overwriting one type byte turns exactly that record into a tombstone and keeps every other byte, length and frame |
| `Frames.FrameReadable` | src/DBEngine/filehandler/deserialization/record.cpp:28-68 | one stretch of bytes is the frame of at most one record |
| `Frames.FileReadable` | src/DBEngine/filehandler/deserialization/record.cpp:28-68 | the bytes of a file determine its list of records |
| `FileFormat.KindCodes` | src/auxiliary/types/types.hpp:50 | type bytes 0, 1, 2, 3; 1 and 3 are skipped |
| `FileFormat.FieldBytes` | src/DBEngine/filehandler/public_api.hpp:42-48 | eight bytes, the lowest first, of every number |
| `FileFormat.HeaderBytes` | src/DBEngine/filehandler/public_api.hpp:15-18 | the 32 bytes of the header |
| `FileFormat.FrameFields` | src/DBEngine/filehandler/serialization/normalized-record.cpp:73-86 | every byte of the frame of a row of three short values |
| `FileFormat.SmallFile` | src/DBEngine/filehandler/serialization/normalized-record.cpp:73-86 | the bytes of a file with an inserted, a deleted and an updated record |
| `FileFormat.TypeByteAt` | src/DBEngine/filehandler/deserialization/record.cpp:8-25 | at the position that the index stores stands 0, 1, 2 or 3 |
| `FileFormat.InsertWritesZero` | src/DBEngine/filehandler/handlers/insert.cpp:12-16 | INSERT writes the type byte 0 |
| `FileFormat.DeleteWritesOne` | src/DBEngine/filehandler/handlers/delete.cpp:76-90 | DELETE turns byte 40 of the one-row file from 0 to 1 and changes no other |
| `FileFormat.UpdateWritesTwo` | src/DBEngine/filehandler/handlers/update.cpp:22-61 | UPDATE writes 1 over the matched records and 2 for the replacements |
| `Like.LikeMatch` | src/DBEngine/services/condition-evaluator/src/like-match.cpp:4-48 | the loop builds the translation of the pattern, and the answer is that of the expression on the whole text |
| `Like.TranslationParses` | src/DBEngine/services/condition-evaluator/src/like-match.cpp:8-36 | every pattern gives a well-formed expression with one atom per pattern character |
| `Like.AtomsMeanLike` | src/DBEngine/services/condition-evaluator/src/like-match.cpp:8-43 | on one-line texts the atoms match exactly when LIKE, defined by recursion on pattern and text, holds |
| `Like.LikeTranslationExact` | src/DBEngine/services/condition-evaluator/src/like-match.cpp:4-48 | all patterns are answered as LIKE on a text if and only if the text has no line terminator |
| `Like.TwoLinesExample` | src/DBEngine/services/condition-evaluator/src/like-match.cpp:10-12 | a two-line text that `%` does not match |
| `Like.LineEnds` | src/DBEngine/services/condition-evaluator/src/like-match.cpp:10-15 | a line feed and a carriage return are matched by neither wildcard |
| `Conditions.Evaluate` | src/DBEngine/services/condition-evaluator/src/evaluate.cpp:3-60 | whatever the runtime types, = holds of equal strings only and != is its negation |
| `Conditions.EvaluateMeans` | src/DBEngine/services/condition-evaluator/src/evaluate.cpp:3-60 | all ten comparators mean what they should: LIKE and NOT LIKE of text values by the recursive definition, IS and IS NOT of NULL and of booleans, the ranges of numbers; LIKE of values without line ends |
| `Conditions.RangesMean` | src/DBEngine/services/condition-evaluator/src/evaluate.cpp:42-56 | on finite numbers the ranges are those of the reals; without two numbers all four are false |
| `TableFiles.TableFile.constructor` | src/DBEngine/filehandler/serialization/create-new-tablefile.cpp:7-22 | a new table file holds the header and nothing else |
| `TableFiles.TableFile.Open` | src/DBEngine/filehandler/handlers/handler-utils.cpp:34-46 | accepts exactly the files whose first eight bytes are the magic number, as a file that starts with the header does, and is left at the first record |
| `Scanners.ReadFrameStart` | src/DBEngine/filehandler/deserialization/record.cpp:8-25 | length field and type byte of the next frame, or the end of the table; a tombstone is told from a live record |
| `Scanners.ReadLiteral` | src/DBEngine/filehandler/deserialization/extract-pks.cpp:40-55 | a length field and that many bytes are read as the value that was written |
| `Scanners.DeserializeNextRecordType` | src/DBEngine/filehandler/deserialization/record-type.cpp:3-29 | lands on the next frame, telling live from tombstone |
| `Scanners.DeserializeNextPrimaryKey` | src/DBEngine/filehandler/deserialization/extract-pks.cpp:8-62 | lands on the next frame with the key of a live record and the position of its type byte; the remaining-bytes subtraction does not underflow |
| `Scanners.ReadProjectedRow` | src/DBEngine/filehandler/deserialization/record.cpp:38-66 | the value loop: the masked values of the row and the truth of the condition |
| `Scanners.ProjectPlaces` | src/DBEngine/filehandler/deserialization/record.cpp:65-66 | projection keeps each masked value once, in schema order |
| `Scanners.DeserializeNextRecord` | src/DBEngine/filehandler/deserialization/record.cpp:4-74 | lands on the next frame; LIVE with the projected row exactly for live records that meet the condition |
| `Scanners.ReadWholeRow` | src/DBEngine/filehandler/deserialization/record.cpp:116-142 | the value loop: the whole row and the truth of the condition |
| `Scanners.DeserializeNextRecordAndMarkAsTombstone` | src/DBEngine/filehandler/deserialization/record.cpp:76-160 | lands on the next frame; a live record that meets the condition is returned whole and loses one byte, any other leaves the file unchanged |
| `Scanners.FindColumnOffset` | src/DBEngine/filehandler/handlers/delete.cpp:168-174 | the offset of the column is found, and is never the not-found sentinel |
| `Scanners.ReadColumnThroughOffsets` | src/DBEngine/filehandler/handlers/delete.cpp:165-190 | the value reached through the offset region is the one a full decoding gives for that column |
| `Scanners.PerformSequentialDelete` | src/DBEngine/filehandler/handlers/delete.cpp:98-214 | lands on the next frame on every path; marks exactly the live records whose named column meets the condition |
| `Schemas.KeywordsAreNotDefaults` | src/auxiliary/utils/insert_utils.cpp:11-26 | the early DEFAULT test hides none of the other modifiers |
| `Schemas.GetModifiers` | src/auxiliary/utils/insert_utils.cpp:7-29 | each flag is set exactly when some trimmed modifier says so |
| `Schemas.GetDefaultValue` | src/auxiliary/utils/insert_utils.cpp:56-65 | the text after the first DEFAULT modifier, the empty string without one, an exception if it is too short |
| `Schemas.NoDefaultIsEmpty` | src/auxiliary/utils/insert_utils.cpp:63-64 | a column without DEFAULT modifier defaults to the empty string |
| `Schemas.ExtractPrimaryKeyColumn` | src/auxiliary/utils/column_utils.cpp:40-45 | the name of the first primary-key column |
| `Schemas.InitializeColumnEncodingMap` | src/DBEngine/execution_context/src/initializers.cpp:52-73 | codes are schema indices, and more than 255 columns is the fatal error |
| `Serializer.FileOrderPlaces` | src/DBEngine/filehandler/serialization/normalized-record.cpp:35-86 | each schema column stands at its place in the file order, for every position of the key |
| `Serializer.ReadersNeedKeyFirst` | src/DBEngine/filehandler/deserialization/record.cpp:41-67 | the readers, which take the i-th value for column i, get all rows right if and only if the key is the first column |
| `Serializer.SecondColumnKeyExample` | src/DBEngine/filehandler/serialization/normalized-record.cpp:82-86 | a row that is read back in another order |
| `Serializer.FindKeyIndex` | src/DBEngine/filehandler/serialization/normalized-record.cpp:15-18 | the schema index of the key |
| `Serializer.CollectColumns` | src/DBEngine/filehandler/serialization/normalized-record.cpp:31-69 | the values after the key with their offsets, defaults where nothing was given; fails exactly when a default cannot be read |
| `Serializer.WriteOffsets` | src/DBEngine/filehandler/serialization/normalized-record.cpp:82 | the offset region of the frame |
| `Serializer.WriteLiterals` | src/DBEngine/filehandler/serialization/normalized-record.cpp:86 | the values after the key |
| `Serializer.SerializeNormalizedRecord` | src/DBEngine/filehandler/serialization/normalized-record.cpp:3-91 | appends exactly the frame of the stored row, its length field being the number of bytes after it, and enters key and type-byte position into the index; an unreadable default changes nothing |
| `Serializer.UpsertPrimaryKeyIndex` | src/DBEngine/execution_context/src/setters.cpp:8-16 | present keys are moved, others added |
| `Log.MarkSplits` | src/DBEngine/filehandler/handlers/delete.cpp:25-31 | after marking, the live rows are the rejected ones in order, and each accepted one is one tombstone more |
| `Log.CompactionIsStable` | src/DBEngine/filehandler/compactor/compact.cpp:23-31 | compaction leaves no tombstone, the same table, and nothing to compact |
| `Log.RebuildIsRight` | src/DBEngine/filehandler/deserialization/extract-pks.cpp:69-86 | the rebuilt index leads every live key to a live record with that key |
| `Log.IndexIsDetermined` | src/DBEngine/filehandler/deserialization/extract-pks.cpp:69-86 | with unique live keys, any two sound and complete indices are equal: first-wins rebuild and last-wins upkeep agree |
| `Log.RebuildCounts` | src/DBEngine/filehandler/handlers/delete.cpp:41-42 | with unique live keys the index has as many entries as there are live rows |
| `Log.UpsertKeepsIndex` | src/DBEngine/execution_context/src/setters.cpp:8-16 | an upsert for an appended record keeps the index sound and complete |
| `Log.EraseKeepsIndex` | src/DBEngine/execution_context/src/erasers.cpp:15-24 | erasing the key of a tombstoned record keeps the index sound, and keeps it complete if and only if no other live record has that key |
| `Compactor.BoundaryAt` | src/DBEngine/filehandler/deserialization/record.cpp:9-73 | every frame boundary is followed by the next one at least 9 bytes on, inside the file |
| `Compactor.ExtractPrimaryKeysIndex` | src/DBEngine/filehandler/deserialization/extract-pks.cpp:69-86 | the scan terminates, visits every record once and builds the first-wins index |
| `Compactor.CalculateTombstoneRatio` | src/DBEngine/filehandler/compactor/ratio-calc.cpp:7-35 | the exact share of tombstones among all records |
| `Compactor.ReadOffsets` | src/DBEngine/filehandler/compactor/copy-record.cpp:27-34 | the offset region is read back entry by entry |
| `Compactor.ReadLiterals` | src/DBEngine/filehandler/compactor/copy-record.cpp:41-50 | the values after the key are read back |
| `Compactor.CopyNextLiveRecord` | src/DBEngine/filehandler/compactor/copy-record.cpp:6-71 | a live record reaches the new file byte for byte, a tombstone does not; the old file is left at the next frame |
| `Compactor.PasteRecord` | src/DBEngine/filehandler/compactor/copy-record.cpp:53-61 | the parts that were read are written as the same frame |
| `Compactor.CompactTable` | src/DBEngine/filehandler/compactor/compact.cpp:8-55 | the file becomes header plus live frames in order |
| `Normalizer.NormalizeInsert` | src/DBEngine/services/semantic_normalizer/src/insert.cpp:7-64 | refuses unknown columns and surplus values; otherwise mask and rows in schema order; of columns with the same name the first is meant |
| `Normalizer.NormalizeRow` | src/DBEngine/services/semantic_normalizer/src/insert.cpp:45-56 | one row in schema order |
| `Normalizer.SlotForMeans` | src/DBEngine/services/semantic_normalizer/src/insert.cpp:47-55 | a named column gets the value at its place, an empty literal if the row is too short |
| `Normalizer.SlotForAbsent` | src/DBEngine/services/semantic_normalizer/src/insert.cpp:46 | a column that is not named gets nothing |
| `Normalizer.ColumnOrderIsIrrelevant` | src/DBEngine/services/semantic_normalizer/src/insert.cpp:23-57 | permuting column list and values together gives the same mask and row |
| `Normalizer.NormalizeUpdate` | src/DBEngine/services/semantic_normalizer/src/update.cpp:3-71 | accepts exactly distinct, known, non-key assignments; the mask keeps the columns that the map does not assign |
| `Normalizer.AssignedTextsMean` | src/DBEngine/services/semantic_normalizer/src/update.cpp:30-63 | the map holds exactly the columns assigned to (the first of each name), each with its literal |
| `Normalizer.NormalizeSelect` | src/DBEngine/services/semantic_normalizer/src/select.cpp:3-35 | refuses unknown columns; otherwise the mask of the named columns in schema order |
| `Normalizer.ResolveWhere` | src/DBEngine/services/semantic_normalizer/src/where.cpp:3-28 | the schema index of the named column, or failure if there is none |
| `Validator.ValidateInsertSemantics` | src/DBEngine/services/semantic_validator/validators/insert.cpp:11-60 | on any schema: accepts exactly if all rows are complete and the literals of primary-key columns, as spelled, are new and distinct |
| `Validator.AcceptedIsValid` | src/DBEngine/services/semantic_validator/validators/insert.cpp:42-54 | with one primary key, those literals are the keys of the rows, one each |
| `Validator.ValidRowHasKey` | src/DBEngine/services/semantic_validator/validators/insert.cpp:42-44 | an accepted row has a key that is not empty |
| `Validator.UniquenessCheckExact` | src/DBEngine/services/semantic_validator/validators/insert.cpp:45-54 | for literals spelled differently, passing the check gives unique stored keys on every table if and only if no literal is quoted |
| `Validator.QuotedKeySlipsThrough` | src/DBEngine/services/semantic_validator/validators/insert.cpp:47-54 | the table on which a quoted literal collides |
| `Validator.QuotedKeyExample` | src/DBEngine/services/semantic_validator/validators/insert.cpp:47-48 | a quoted literal that passes and collides |
| `Statements.UpsertAllKeepsIndex` | src/DBEngine/filehandler/handlers/insert.cpp:12-16 | the index after a multi-row append is sound, and complete if it was |
| `Statements.UpdatedLogCounts` | src/DBEngine/filehandler/handlers/update.cpp:22-61 | UPDATE leaves the unmatched rows in order, then each matched row once, replaced; appended rows are not matched again |
| `Statements.PlacedFirst` | src/DBEngine/filehandler/handlers/delete.cpp:145-190 | DELETE evaluates every condition on the value on which SELECT and UPDATE do if and only if the key is the first column |
| `Statements.RunConcat` | src/interpreter/interpreter_visitor.hpp:22-24 | a run can be cut anywhere: states and answers compose |
| `Statements.StepKeepsInv` | src/DBEngine/filehandler/handlers/delete.cpp:5-70 | every statement, quoted keys or not, keeps the index leading to live records with their key and the counter within the tombstones |
| `Engines.MarkingBoundary` | src/DBEngine/filehandler/deserialization/record.cpp:151-157 | in a file that is being marked the scan stands at a frame boundary and finds the records that were there |
| `Engines.MarkingStep` | src/DBEngine/filehandler/handlers/delete.cpp:197-207 | one more byte overwritten marks one more record |
| `Engines.Engine.constructor` | src/DBEngine/execution_context/src/initializers.cpp:52-129 | program start: codes from the schema, index from the file, counter 0 |
| `Engines.Engine.RecalculateIndices` | src/DBEngine/execution_context/src/setters.cpp:18-24 | the index becomes the one rebuilt from the file |
| `Engines.Engine.CompactIfDue` | src/DBEngine/filehandler/handlers/delete.cpp:39-62 | compaction, counter reset and rebuild exactly when estimate and ratio both reach the threshold |
| `Engines.Engine.InsertData` | src/DBEngine/filehandler/handlers/insert.cpp:3-24 | the rows are appended up to the first one whose default cannot be read, and the index follows |
| `Engines.Engine.DeleteByIndexLookup` | src/DBEngine/filehandler/handlers/delete.cpp:76-90 | the record of the key becomes a tombstone and the key leaves the index; a missing key changes nothing |
| `Engines.Engine.MarkSequentially` | src/DBEngine/filehandler/handlers/delete.cpp:25-31 | the scan marks exactly the rows that meet the condition and counts them |
| `Engines.Engine.DeleteData` | src/DBEngine/filehandler/handlers/delete.cpp:5-70 | strategy choice, deletion and compaction |
| `Engines.Engine.CollectAndMark` | src/DBEngine/filehandler/handlers/update.cpp:14-33 | the rows that meet the condition, in file order, each marked and counted |
| `Engines.Engine.BuildReplacements` | src/DBEngine/filehandler/handlers/update.cpp:35-49 | assigned columns take the new text, all others the old value |
| `Engines.Engine.AppendReplacements` | src/DBEngine/filehandler/handlers/update.cpp:51-61 | the replacements are appended in order |
| `Engines.Engine.UpdateData` | src/DBEngine/filehandler/handlers/update.cpp:3-103 | the log of UPDATE, its rebuilt index, and compaction |
| `Engines.Engine.SelectByIndexLookup` | src/DBEngine/filehandler/handlers/select.cpp:21-33 | the record to which the index leads, if it meets the condition; a missing key is an exception |
| `Engines.Engine.SelectSequentially` | src/DBEngine/filehandler/handlers/select.cpp:34-46 | the projections of the rows that meet the condition, in file order |
| `Engines.Engine.VisitInsert` | src/interpreter/interpreter_visitor.hpp:48-59 | normalize, validate, insert |
| `Engines.Engine.VisitSelect` | src/interpreter/interpreter_visitor.hpp:61-79 | normalize, validate, select; no state is changed |
| `Engines.Engine.VisitUpdate` | src/interpreter/interpreter_visitor.hpp:88-99 | normalize, validate, update |
| `Engines.Engine.VisitDelete` | src/interpreter/interpreter_visitor.hpp:105-117 | strip the literal, normalize, validate, delete |
| `Engines.Engine.Execute` | src/interpreter/interpreter_visitor.hpp:22-24 | one statement: state and answer are those of the specification, and the file holds the log byte for byte |
| `Engines.Engine.RunAll` | src/interpreter/interpreter_visitor.hpp:22-24 | a list of statements on the file and the index in memory is the run of the specification |
| `Engines.Engine.ExecuteAll` | src/interpreter/interpreter_visitor.hpp:22-24 | a list of statements: its run, and, from a clean state while the keys of the plain table are distinct, the answers and rows of the plain table |
| `CompactionGate.ThresholdsAre` | src/DBEngine/filehandler/handlers/delete.cpp:41-53 | the estimate is reached exactly at 3D >= 2(I + 1), I the entries of the index, and the exact ratio at 3T >= 2L |
| `CompactionGate.EstimateIsSound` | src/DBEngine/filehandler/handlers/delete.cpp:41-53 | the estimate triggers only on a file with records; with one index entry per live row the exact ratio is then reached |
| `CompactionGate.IndexAtMostLive` | src/DBEngine/filehandler/handlers/delete.cpp:41-42 | an index never has more entries than there are live rows |
| `CompactionGate.GateDeclines` | src/DBEngine/filehandler/handlers/delete.cpp:41-53 | in every state: the ratio never divides by zero; the estimate is reached in vain exactly at 3D >= 2(I + 1) with 3T < 2L, and only if the index has fewer entries than there are live rows |
| `CompactionGate.GateBounds` | src/DBEngine/filehandler/handlers/delete.cpp:39-62 | after the gate 3D < 2(L + 1), whether it compacted or not |
| `CompactionGate.StepKeepsBound` | src/DBEngine/filehandler/handlers/delete.cpp:39-62 | no statement, whatever the keys, takes the counter out of 3D < 2(L + 1) |
| `CompactionGate.RunKeepsBound` | src/DBEngine/filehandler/handlers/delete.cpp:39-62 | every run, restarts included, keeps 3D < 2(L + 1) |
| `AccessPaths.CountMatches` | src/DBEngine/filehandler/handlers/select.cpp:34-46 | a scan finds record k alone exactly when its condition accepts no other live record |
| `AccessPaths.KeyCondition` | src/DBEngine/filehandler/handlers/delete.cpp:145-190 | for every position of the key, DELETE reads `key = literal` as a test of the key, the others as a test of the value at its schema index |
| `AccessPaths.IndexedDeleteIsScan` | src/DBEngine/filehandler/handlers/delete.cpp:20-34 | in every state: DELETE through the index leaves the log, hence the bytes, and the counter of the scan if and only if no other live record has the key |
| `AccessPaths.UniqueDeleteIsScan` | src/DBEngine/filehandler/handlers/delete.cpp:20-34 | with unique keys and a complete index, the index too |
| `AccessPaths.IndexedSelectIsScan` | src/DBEngine/filehandler/handlers/select.cpp:21-46 | in every state: SELECT through the index answers what the scan answers if and only if no other live record meets the condition, which with the key first means has the key |
| `Runs.GateKeepsTable` | src/DBEngine/filehandler/handlers/delete.cpp:39-62 | after the gate the table is the same and the index complete |
| `Runs.InsertKeepsDistinct` | src/DBEngine/services/semantic_validator/validators/insert.cpp:45-54 | an accepted INSERT keeps the keys of the table distinct if and only if those it stores are new |
| `Runs.InsertKeepsKeys` | src/DBEngine/services/semantic_validator/validators/insert.cpp:45-54 | and distinct and unquoted if and only if those it stores are new and unquoted |
| `Runs.TableStepKeepsKeys` | src/interpreter/interpreter_visitor.hpp:48-117 | the latter of every statement |
| `Runs.RunKeepsKeys` | src/interpreter/interpreter_visitor.hpp:48-117 | the keys are distinct and unquoted all along a run if and only if each INSERT stores new, unquoted ones |
| `Runs.NewKeysStayDistinct` | src/interpreter/interpreter_visitor.hpp:48-117 | so a run of such INSERTs meets the condition of the laws about runs |
| `Runs.BareKeysAreNew` | src/DBEngine/services/semantic_validator/validators/insert.cpp:45-54 | an accepted INSERT whose key literals carry no quotes stores new, unquoted keys |
| `Runs.BareRunIsNew` | src/DBEngine/services/semantic_validator/validators/insert.cpp:45-54 | and so does every run of such statements, on every table |
| `Runs.UpdateKeepsKeys` | src/DBEngine/services/semantic_normalizer/src/update.cpp:51-55 | UPDATE keeps the number of rows and the set of keys |
| `Runs.StepRefinesTable` | src/interpreter/interpreter_visitor.hpp:48-117 | one statement on the engine from a clean state is the statement on the plain table; the state stays clean if and only if the keys of the plain table stay distinct |
| `Runs.RunRefinesTable` | src/interpreter/interpreter_visitor.hpp:48-117 | every run, restarts included, answers as the plain table and ends with its rows, as long as the keys of the plain table are distinct before each statement |
| `Runs.StartIsClean` | src/DBEngine/execution_context/src/initializers.cpp:89-129 | program start on a file with distinct live keys is clean |
| `Runs.NewTableIsClean` | src/DBEngine/filehandler/serialization/create-new-tablefile.cpp:7-22 | a table file that was just created is clean |
| `Runs.ReachableStates` | src/DBEngine/execution_context/src/setters.cpp:8-24 | after such a run: the index has the keys of the table and, if these are distinct, equals a rebuild with one entry per row; D <= T, and 3D < 2(L + 1) if so at the start |
| `Agreement.StepKeepsComplete` | src/DBEngine/filehandler/handlers/delete.cpp:5-90 | every statement, quoted keys or not, keeps a complete index complete, unless it deletes through the index one of several rows with a key and no compaction follows; then it does not |
| `Agreement.RunKeepsComplete` | src/DBEngine/execution_context/src/setters.cpp:8-24 | every run without such a DELETE ends with a complete index, equal to a rebuild if the live keys are unique |
| `Agreement.UniqueRunsAgree` | src/DBEngine/execution_context/src/setters.cpp:8-24 | while the live keys have been unique all along, quoted or not, the index equals a rebuild |
| `Agreement.UniqueIsDistinct` | src/interpreter/interpreter_visitor.hpp:48-117 | from a clean state, the live keys of the log are unique all along exactly while the keys of the plain table are distinct |
| `Agreement.GateNeverDeclines` | src/DBEngine/filehandler/handlers/delete.cpp:41-53 | a statement that starts and ends with unique live keys, quoted or not: the ratio never declines, so the estimate, then 3D >= 2(L + 1), alone decides on the compaction |
| `Agreement.RunNeverDeclines` | src/DBEngine/filehandler/handlers/delete.cpp:41-53 | the same of every run while the live keys are unique |
| `Examples.TwinExample` | src/DBEngine/filehandler/handlers/delete.cpp:76-90 | INSERT 'a' twice and DELETE WHERE id = 'a': the keys are unique again, and the index lacks a key that a rebuild has |
| `Examples.PathsExample` | src/DBEngine/filehandler/handlers/select.cpp:21-46 | after INSERT '1' on the row 1, SELECT and DELETE WHERE id = 1 find one row through the index, the scan two |
| `Examples.DeclineExample` | src/DBEngine/filehandler/handlers/delete.cpp:41-53 | a run after which the estimate is 2/5 and the exact ratio 2/6 |
| `Examples.MissExample` | src/DBEngine/filehandler/handlers/delete.cpp:79-81 | INSERT '"a"' is accepted, and DELETE WHERE id = '"a"' is aborted |
| `Space.StepSlack` | src/DBEngine/filehandler/handlers/update.cpp:23-33 | no statement but a restart adds a tombstone that is not counted |
| `Space.SpaceBound` | src/DBEngine/filehandler/handlers/delete.cpp:43-62 | after every run of a session, whatever its keys, 3(T' - S) < 2(L' + 1), where S is the number of tombstones not counted at its start; so 3T' < 2(L' + 1) from a file without tombstones |
| `Space.RestartRound` | src/DBEngine/execution_context/src/initializers.cpp:122-129 | insert, delete, restart: one tombstone more, same table, clean state, same counter |
| `Space.RestartRounds` | src/DBEngine/execution_context/src/initializers.cpp:122-129 | n such rounds: n tombstones more, same table, same counter |
| `Space.SmallestRound` | src/DBEngine/execution_context/src/initializers.cpp:122-129 | INSERT 2 and DELETE 2 on a table with the row 1 are such a round |
| `Space.RestartsBreakTheBound` | src/DBEngine/execution_context/src/initializers.cpp:122-129 | from a file with one live row and no tombstone, n rounds leave n tombstones beside it, for every n for which the file stays small enough; from n = 2 on 3T >= 2(L + 1) |
| `SmallTable.OneColumnIsValid` | src/auxiliary/utils/insert_utils.cpp:15-18 | a one-column table that the engine accepts |
| `SmallTable.InsertOne` | src/DBEngine/filehandler/serialization/normalized-record.cpp:73-86 | on it, INSERT of a new key appends 17 bytes and the key, and enters the position of the type byte |
| `Laws.CompactionPreservesTable` | src/DBEngine/filehandler/compactor/copy-record.cpp:6-71 | the compacted file is the header plus the live frames in order; same table; idempotent |
| `Laws.LookupSurvivesCompaction` | src/DBEngine/filehandler/handlers/delete.cpp:57-60 | after compaction the rebuilt index finds for each key the row found before |
| `Laws.DeleteStripsTwice` | src/DBEngine/services/semantic_normalizer/src/delete.cpp:7-12 | DELETE reads its condition as the other statements do, for all comparators, if and only if the stripped literal is not quoted again |
| `Laws.StripsTwiceExample` | src/DBEngine/services/semantic_normalizer/src/delete.cpp:7-12 | the literal '"a"', on which DELETE takes another row than SELECT and UPDATE |
| `Laws.SameConditionSameRows` | src/DBEngine/filehandler/deserialization/record.cpp:116-159 | DELETE removes exactly what SELECT * returns; UPDATE leaves what DELETE leaves plus the replacements of those rows |
| `Laws.UpdateIsExact` | src/DBEngine/filehandler/handlers/update.cpp:40-46 | an accepted UPDATE leaves the table it is meant to leave if and only if no value of a matched row, kept or assigned, is quoted |
| `Laws.UpdateUnquotesExample` | src/DBEngine/filehandler/serialization/normalized-record.cpp:52 | a kept value that loses its quotes |
| `Laws.UpdatesKeepDistinct` | src/DBEngine/filehandler/serialization/normalized-record.cpp:20-52 | all UPDATEs leave the distinct keys of a table distinct if and only if no two of them, the one as it is or unquoted and the other unquoted, are equal |
| `Laws.KeysMeetExample` | src/DBEngine/filehandler/serialization/normalized-record.cpp:20-52 | the keys "a" (with its quotes) and a become equal |
| `Laws.DeletesNeverMiss` | src/DBEngine/filehandler/handlers/delete.cpp:79-81 | no DELETE is aborted by a missing key if and only if every key of the index is there without its outer quotes too |
| `Laws.SelectsNeverMiss` | src/DBEngine/filehandler/handlers/select.cpp:21-33 | the same of SELECT |
| `Laws.SelectByKeyNeedsBareLiteral` | src/DBEngine/services/semantic_validator/validators/select.cpp:15-29 | a key that is in the index is found by key equality if the literal is not quoted, and the statement is refused if it is, unless the literal is a key with its quotes on |
| `Laws.SelectByKeyExample` | src/DBEngine/services/semantic_validator/validators/select.cpp:15-29 | on a table with the row a, SELECT WHERE id = 'a' is refused while DELETE with that condition takes the row away |
| `Outcomes.SelectAccepts` | src/DBEngine/services/semantic_validator/validators/where.cpp:24-71 | SELECT is refused exactly for an unknown column, a condition that does not fit its comparator, or a key literal that is no key; it is aborted or answers otherwise |
| `Outcomes.DeleteAccepts` | src/DBEngine/services/semantic_validator/validators/where.cpp:24-71 | DELETE is refused, aborted or done, with the condition for each |
| `Outcomes.UpdateAccepts` | src/DBEngine/services/semantic_normalizer/src/update.cpp:30-63 | UPDATE is done exactly for a non-empty list of different, known, non-key columns and a fitting condition, and refused otherwise |
| `Outcomes.InsertAccepts` | src/DBEngine/services/semantic_normalizer/src/insert.cpp:23-57 | INSERT is accepted exactly if every listed name is a column, no row has more values than the table columns, every column left out or empty may be empty, and the key literals are fresh |
| `Outcomes.MayBeEmptyWords` | src/auxiliary/utils/insert_utils.cpp:38-48 | a column may be empty exactly if its modifiers do not hold PRIMARY KEY, nor NOT NULL without a DEFAULT; UNIQUE makes no difference |
| `Outcomes.InsertAnswers` | src/DBEngine/filehandler/handlers/insert.cpp:3-24 | INSERT is done exactly if it is accepted and every column that is left out or empty has a readable default; otherwise refused or aborted |
| `Outcomes.InsertStores` | src/DBEngine/filehandler/serialization/normalized-record.cpp:43-53 | the stored value of each column: the one given last for it, unquoted, or the default where it was omitted, missing or empty |
| `Outcomes.DefaultText` | src/auxiliary/utils/insert_utils.cpp:56-65 | the default is the text after the first DEFAULT, unquoted |
| `Outcomes.SelectAnswers` | src/DBEngine/filehandler/handlers/select.cpp:21-46 | SELECT with a condition answers the named columns of exactly the rows whose value meets the comparator, in order |
| `Outcomes.SelectAnswersAll` | src/DBEngine/filehandler/handlers/select.cpp:34-46 | without one, the named columns of all rows |
| `Outcomes.SelectLike` | src/DBEngine/services/condition-evaluator/src/like-match.cpp:4-48 | SELECT * WHERE c LIKE p answers exactly the rows whose text value matches p as LIKE is defined |
| `Outcomes.DeleteLeaves` | src/DBEngine/filehandler/handlers/delete.cpp:25-31 | DELETE leaves exactly the rows whose value does not meet the comparator, in order |
| `Outcomes.UpdateLeaves` | src/DBEngine/filehandler/handlers/update.cpp:14-61 | UPDATE leaves the rows that do not meet the condition, then the others with the assigned values |
| `Outcomes.UpdateLeavesAll` | src/DBEngine/filehandler/handlers/update.cpp:14-61 | without one, all rows with the assigned values |
| `Outcomes.UpdatesOneByOne` | src/DBEngine/filehandler/handlers/update.cpp:35-49 | on values without outer quotes, an UPDATE of several columns is the UPDATEs of one column each |
| `Users.InsertTwoUsers` | src/DBEngine/services/semantic_normalizer/src/insert.cpp:45-56 | an INSERT with a partial column list: the omitted columns get their defaults |
| `Users.InsertOneUser` | src/DBEngine/services/semantic_normalizer/src/insert.cpp:45-56 | an INSERT with fewer values than columns |
| `Users.SessionAnswers` | README.md:60-92 | the answers of the example session on the plain table |
| `Users.EngineAnswers` | README.md:60-92 | and on the engine, from a table file just created |
| `Laws.InsertOrderIsIrrelevant` | src/DBEngine/services/semantic_normalizer/src/insert.cpp:23-57 | naming the columns in another order, rows alike, stores the same rows |
| `Laws.SelectStarAfterInsert` | src/DBEngine/filehandler/handlers/select.cpp:34-46 | after an accepted INSERT, SELECT * answers the rows before it and then the stored ones as they stand in the file |
| `Laws.StoredRowsReadBack` | src/DBEngine/filehandler/serialization/normalized-record.cpp:73-86 | the rows of all INSERTs into a table are read back as stored if and only if the key is the first column |
| `Laws.InsertsComplete` | src/DBEngine/filehandler/handlers/insert.cpp:12-16 | all accepted INSERTs into a table store all their rows if and only if every column but the key has a readable default |
| `Laws.HalfAnInsertExample` | src/auxiliary/utils/insert_utils.cpp:60 | an INSERT of two rows of which the first is stored and the second aborts |
| `Laws.QuotedKeyIsStoredTwice` | src/DBEngine/services/semantic_validator/validators/insert.cpp:45-54 | a quoted spelling of an existing key, not itself a key, is accepted, and the key is then in the table twice |
| `Laws.SameMeaningSameStep` | src/auxiliary/utils/insert_utils.cpp:7-65 | the engine sees of a schema only names, flags and defaults |
| `Laws.SameMeaningSameRun` | src/auxiliary/utils/insert_utils.cpp:7-65 | and so every run |
| `Laws.RestartOnPrintedSchema` | src/DBEngine/execution_context/src/initializers.cpp:4-50 | a program restarted on the printed schema answers every run exactly as before, if every column survives |
| `Metadata.PrintModifiers` | src/DBEngine/filehandler/handlers/create_untyped.cpp:35-38 | modifiers separated by commas |
| `Metadata.PrintMetadata` | src/DBEngine/filehandler/handlers/create_untyped.cpp:30-41 | one line per column |
| `Metadata.PrintedFormat` | src/DBEngine/filehandler/handlers/create_untyped.cpp:30-41 | name, blank, modifiers with commas between, line end |
| `Metadata.SplitModifiers` | src/DBEngine/execution_context/src/initializers.cpp:33-39 | the non-empty pieces between commas |
| `Metadata.ReadMetadata` | src/DBEngine/execution_context/src/initializers.cpp:21-42 | one column per line: first word and modifiers |
| `Metadata.ReadPrinted` | src/DBEngine/execution_context/src/initializers.cpp:23-42 | without line ends in modifiers, each column is read from its own line |
| `Metadata.ReadPrintedLine` | src/DBEngine/execution_context/src/initializers.cpp:26-39 | a printed line is read back as the name and the non-empty pieces between the commas of each modifier |
| `Metadata.PrintedLineEnds` | src/DBEngine/filehandler/handlers/create_untyped.cpp:30-41 | a line end in a modifier makes more lines than columns |
| `Metadata.CommaLosesDefault` | src/DBEngine/execution_context/src/initializers.cpp:36-38 | the default survives if and only if the first DEFAULT modifier has no comma |
| `Metadata.CommaDefaultExample` | src/DBEngine/execution_context/src/initializers.cpp:36-38 | a schema that does not survive a restart |
| `Metadata.FlagsSurvive` | src/DBEngine/execution_context/src/initializers.cpp:36-38 | the flags survive if and only if no piece of a modifier reads as a keyword that the column lacks |
| `Metadata.StrayKeywordExample` | src/DBEngine/execution_context/src/initializers.cpp:36-38 | a second DEFAULT modifier that turns into a UNIQUE flag |
| `Metadata.MetadataRoundTrip` | src/DBEngine/execution_context/src/initializers.cpp:23-42 | names, flags and defaults of all columns survive if and only if no modifier holds a line end, no first DEFAULT modifier a comma, and no later one a stray keyword |
| `Metadata.SeparableSurvives` | src/DBEngine/execution_context/src/initializers.cpp:23-42 | modifiers without commas and line ends survive |

## Left out

- File-system calls, stream error states and timing: a file is its bytes and a position; no `-new.bin` file is left
  over when a compaction starts; a compacted file replaces the old one in one step.
- The command-line driver, logging, message templates and result printing; the lexer and the grammar: statements
  start as syntax trees.
- Numbers: which double a string is read as, if any, is a parameter (`Conditions.Numbers`); conversion errors of very
  large numbers are not modelled.
- The regular-expression engine: `Like.Matches` is the meaning of the small dialect that the translation emits.
- Floating-point rounding: the two ratios are exact and the threshold is 2/5.
- CREATE and DROP as steps of a run, and several tables: CREATE does not set the counter of deletions and DROP does
  not clear it; one table present at program start is modelled. The silent mode, in which fatal errors return, is
  not part of this model.
- CSV import.
- Validators on statements that failed to normalize: such a statement is rejected. The copy of the assignment
  checks in validators/update.cpp, which normalization has already made, is not repeated.
- Tables whose key is not the first column: the engine and its steps are specified for every position of the key; the
  comparison with the plain table, which is about rows in schema order, is for tables with the key first.
- Tables with repeated column names, with several primary keys or none: the normalizer and the validator of INSERT are
  proved for them, the engine (`Statements.Table.Valid`) is not: equal names share one column code, and the index is
  that of the one primary key.
- Fits: statements and runs are specified while the file stays below 2^63 bytes, so that positions in it are signed
  64-bit numbers. (The repository states a limit, LONG_INT_MAX, for the length of one record.)
