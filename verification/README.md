# Lecturer rank ledger

A Dafny model of the core of `LecturerHttpController`, the lecturer service of the edupanel back end.

Every lecturer is ranked in one of two rank tables, `full_time_rank` or `part_time_rank`. The controller keeps each table dense:

- `createNewLecturer` appends the new lecturer at the table's maximum rank plus one, or at 1 when the table is empty.
- `deleteLecturer` deletes the lecturer's rank row and moves every higher rank down by one.
- `getAllLecturers` lists the full-time lecturers by ascending rank, then the part-time ones.

Both writing operations run inside one JDBC transaction that rolls back on any exception. The picture blob in the storage bucket lives outside that transaction.

## How it is modelled

- `outcomes.dfy` (`Outcomes`): `Option` and `Result`.
- `text.dfy` (`Text`): picture names and type strings.
  - `Decimal` renders the generated id in decimal.
  - A picture is named `PictureName(id, name) = Decimal(id) + "-" + name`. `ParsePictureName` inverts it, so two lecturers never share a picture name.
  - `EqualsIgnoreCase` follows Java's `String.equalsIgnoreCase` character rule. Two characters match if they are equal, their upper cases are equal, or the lower cases of their upper cases are equal. Its case table covers ASCII and the four non-ASCII characters whose case mappings land in ASCII: dotless i, dotted capital I, long s and the Kelvin sign.
- `rank_table.dfy` (`RankTable`): a rank table is a sequence of SQL rows `Row(lecturerId, rank)`.
  - `Dense(t)` means the ranks of `t` are exactly `1..|t|`.
  - The SQL statements are modelled as written:
    - `NextRank` is `ORDER BY rank DESC LIMIT 1`, plus 1.
    - `DeleteRank` is `DELETE ... WHERE rank = r`.
    - `ShiftDown` is `UPDATE ... SET rank = rank - 1 WHERE rank > r`.
    - `RankOf` reads a rank through a left outer join, with SQL NULL read as 0.
    - `SortByRank` is `ORDER BY rank ASC`.
- `store.dfy` (`Store`): the state.
  - `Db` is the lecturer table plus the two rank tables. It is the part a rollback restores.
  - `World` adds the next auto-increment id and the set of blob names in the bucket.
  - `Valid` is the ledger invariant:
    - both tables are dense;
    - every lecturer has exactly one rank row, in exactly one table;
    - ids are below the next id;
    - a stored picture name is `id-name`.
- `controller.dfy` (`LecturerController`): `Create`, `Delete` and `ListLecturers`.
  - `Create` and `Delete` take a `fault: Option<Step>` naming the statement that throws, if it is reached.
  - On failure the relational state is `w.db` again. The bucket keeps whatever the upload or blob delete already did.
  - The generated id is spent once the INSERT has run, even if the transaction rolls back. Reading the generated key back (lines 53-55) is a step of its own, after the INSERT, so a failure there also spends the id.
  - `CreateStatements` and `DeleteStatements` are the transactions' statements on the relational state.
- `controller_proofs.dfy` (`ControllerProofs`): the properties of the three operations and a worked scenario.

The bucket is changed before the transaction commits, and the model follows the code in this:

- It uploads the blob before `commit` (lines 80-87).
- It deletes the blob before `commit` (line 148).
- It never removes an uploaded blob on rollback.

The model does the same. `CreateCommitFailureOrphansPicture` and `DeleteCommitFailureDanglesPicture` state the two resulting inconsistencies.

## Model

| member | source | states |
|---|---|---|
| Text.Decimal | src/main/java/lk/ijse/api/LecturerHttpController.java:56 | the decimal rendering of an id is a non-empty digit string with no leading zero (for ids above 0) |
| Text.DecimalRoundTrip | src/main/java/lk/ijse/api/LecturerHttpController.java:56 | reading the decimal rendering of an id back gives the id |
| Text.PictureNameRoundTrip | src/main/java/lk/ijse/api/LecturerHttpController.java:56 | parsing the picture name `id + "-" + name` gives back both the id and the name |
| Text.PictureNameInjective | src/main/java/lk/ijse/api/LecturerHttpController.java:56 | two picture names are equal only when the ids and the names are equal |
| Text.CharsEqualIgnoreCaseIsFolding | src/main/java/lk/ijse/api/LecturerHttpController.java:67-68 | against an ASCII character that is not upper case, Java's per-character case-insensitive match holds exactly when the other character folds to it |
| Text.IsFullTimeIffFolds | src/main/java/lk/ijse/api/LecturerHttpController.java:67-68 | a type selects the full-time table exactly when it has nine characters and each one folds to the matching character of "full-time" |
| Text.EqualsIgnoreCase | src/main/java/lk/ijse/api/LecturerHttpController.java:67 | equal strings match case-insensitively, and only strings of equal length can match |
| Text.EqualsIgnoreCaseSymmetric | src/main/java/lk/ijse/api/LecturerHttpController.java:67 | the case-insensitive test gives the same answer with its arguments swapped |
| Text.IsFullTime | src/main/java/lk/ijse/api/LecturerHttpController.java:67-68 | "full-time" itself selects the full-time table, "part-time" does not, and only a nine-character type can |
| Text.FullTimeExamples | src/main/java/lk/ijse/api/LecturerHttpController.java:67-68 | "full-time", "FULL-TIME", "Full-Time" and a spelling with dotless i select the full-time table |
| Text.PartTimeExamples | src/main/java/lk/ijse/api/LecturerHttpController.java:67-68 | "part-time", "fulltime" and "full time" select the part-time table |
| RankTable.DenseIff | src/main/java/lk/ijse/api/LecturerHttpController.java:70-78 | a table holds exactly ranks `1..N` if and only if its ranks are pairwise distinct and all lie in `1..N` |
| RankTable.MaxRank | src/main/java/lk/ijse/api/LecturerHttpController.java:70 | the query for the top rank finds nothing exactly when the table is empty, and otherwise a rank of the table that no row exceeds |
| RankTable.NextRank | src/main/java/lk/ijse/api/LecturerHttpController.java:70-73 | the next rank is 1 for an empty table, otherwise one more than a rank in the table that no rank exceeds |
| RankTable.AppendRow | src/main/java/lk/ijse/api/LecturerHttpController.java:74-78 | inserting a rank row adds exactly its rank and its id, and keeps ranks or ids distinct exactly when they were absent |
| RankTable.AppendKeepsDense | src/main/java/lk/ijse/api/LecturerHttpController.java:67-78 | in a table holding `1..N` the next rank is `N + 1`, and after the insert the table holds exactly `1..N+1` |
| RankTable.DeleteRank | src/main/java/lk/ijse/api/LecturerHttpController.java:137-138 | deleting at rank `r` keeps only rows of the table, removes exactly `r` from the ranks, keeps ranks and ids distinct, is a no-op when `r` is absent, and removes one row when ranks are distinct |
| RankTable.ShiftDown | src/main/java/lk/ijse/api/LecturerHttpController.java:140-141 | the shift keeps every row's id and position, lowers each rank above `r` by one and leaves the others unchanged |
| RankTable.RemoveEffect | src/main/java/lk/ijse/api/LecturerHttpController.java:137-141 | after delete and shift at `r`: ranks below `r` stay, ranks above `r` drop by exactly one, and every remaining row comes from one of the two |
| RankTable.RemoveKeepsDense | src/main/java/lk/ijse/api/LecturerHttpController.java:137-141 | removing a rank present in a table holding `1..N` leaves it holding exactly `1..N-1`, one row shorter |
| RankTable.RemoveZeroBreaksDense | src/main/java/lk/ijse/api/LecturerHttpController.java:131-141 | removing rank 0 from a non-empty table holding `1..N` deletes no row, leaves a row at rank 0, and the table is no longer dense |
| RankTable.RankOf | src/main/java/lk/ijse/api/LecturerHttpController.java:131-132 | a lecturer without a rank row reads rank 0; one with a rank row reads the rank of a row of its own |
| RankTable.RankOfRow | src/main/java/lk/ijse/api/LecturerHttpController.java:131-132 | in a table with distinct ids, the rank read for a row's lecturer is that row's rank |
| RankTable.DeleteRankDropsId | src/main/java/lk/ijse/api/LecturerHttpController.java:131-138 | with distinct ranks and ids, deleting at the lecturer's rank removes exactly that lecturer's id |
| RankTable.SortByRank | src/main/java/lk/ijse/api/LecturerHttpController.java:165 | ordering by rank gives a permutation of the table with ascending ranks |
| RankTable.SortedDenseIsIndexed | src/main/java/lk/ijse/api/LecturerHttpController.java:165 | a dense table in rank order has at position `i` a row of the table with rank `i + 1` |
| Store.PicturesExclusive | src/main/java/lk/ijse/api/LecturerHttpController.java:56 | in a valid state two different lecturers never store the same picture name |
| LecturerController.CreateStatements | src/main/java/lk/ijse/api/LecturerHttpController.java:44-78 | the create statements add exactly the new id to the lecturers, with the requested fields and the picture name only when a picture was sent; every other lecturer and the unselected table stay unchanged; the selected table gains one row, carrying the new id |
| LecturerController.DeleteStatements | src/main/java/lk/ijse/api/LecturerHttpController.java:131-146 | the delete statements remove exactly that lecturer row; the table not picked stays unchanged; the picked table gets no longer and gains no id |
| LecturerController.Create | src/main/java/lk/ijse/api/LecturerHttpController.java:39-104 | create succeeds exactly when no reached statement throws; on failure it names the step and restores the relational state; the id is spent once inserted; the bucket gains at most the new picture; on success the new id is the generated one and the only new lecturer |
| LecturerController.Delete | src/main/java/lk/ijse/api/LecturerHttpController.java:113-160 | an unknown id fails with not-found and changes nothing; on any failure the relational state is restored; the id counter is untouched; blobs are only removed; on success exactly that lecturer is gone |
| LecturerController.Join | src/main/java/lk/ijse/api/LecturerHttpController.java:165-193 | the inner join yields at most one entry per rank row, each a listed lecturer with its stored fields and the given type; when every row's lecturer exists, one entry per row in row order |
| LecturerController.ListLecturers | src/main/java/lk/ijse/api/LecturerHttpController.java:163-203 | the listing has at most one entry per rank row, and each is labelled "full-time" or "part-time" |
| ControllerProofs.CreateAppendsRank | src/main/java/lk/ijse/api/LecturerHttpController.java:44-78 | a successful create adds one row at the next rank to the selected table only, and inserts the lecturer with the requested fields |
| ControllerProofs.CreateExtendsDenseTable | src/main/java/lk/ijse/api/LecturerHttpController.java:67-78 | from a valid state, the selected table goes from `1..N` to `1..N+1` with the new lecturer at `N + 1`; the lecturer is full-time exactly when the type equals "full-time" ignoring case, and part-time otherwise |
| ControllerProofs.CreateStatementsKeepTables | src/main/java/lk/ijse/api/LecturerHttpController.java:67-78 | the create statements keep both tables dense with distinct ids |
| ControllerProofs.CreateStatementsKeepPartition | src/main/java/lk/ijse/api/LecturerHttpController.java:44-78 | after the create statements, every lecturer still has a rank row in exactly one table |
| ControllerProofs.CreateStatementsKeepPictureNames | src/main/java/lk/ijse/api/LecturerHttpController.java:56-65 | after the create statements, every stored picture name is still `id-name` |
| ControllerProofs.CreateStatementsValid | src/main/java/lk/ijse/api/LecturerHttpController.java:44-78 | the create statements keep the ledger invariant |
| ControllerProofs.CreatePreservesValid | src/main/java/lk/ijse/api/LecturerHttpController.java:39-104 | create keeps the ledger invariant, whether it commits or rolls back |
| ControllerProofs.CreatePicture | src/main/java/lk/ijse/api/LecturerHttpController.java:56-94 | with a non-empty picture: the row stores `id-name`, the blob is uploaded and the response carries its signed URL; without one: no picture, no upload, no URL; the other response fields echo the request |
| ControllerProofs.CreateFailureKeepsUpload | src/main/java/lk/ijse/api/LecturerHttpController.java:80-97 | a failed create restores the relational state, and the bucket keeps the picture only when the failure came after the upload |
| ControllerProofs.CreateCommitFailureOrphansPicture | src/main/java/lk/ijse/api/LecturerHttpController.java:80-97 | a commit failure after an upload leaves a blob that no lecturer row names |
| ControllerProofs.CreateKeepsPicturesStored | src/main/java/lk/ijse/api/LecturerHttpController.java:56-87 | create never leaves a lecturer row naming a picture missing from the bucket |
| ControllerProofs.DeletePicksOwnTable | src/main/java/lk/ijse/api/LecturerHttpController.java:131-135 | in a valid state, delete picks the table the lecturer is ranked in, at a rank in `1..N`, and the lecturer has no row in the other table |
| ControllerProofs.DeleteStatementsCloseGap | src/main/java/lk/ijse/api/LecturerHttpController.java:131-146 | from a valid state, the picked table loses exactly the lecturer's id and one row and stays dense; the other table and the other lecturers are untouched |
| ControllerProofs.DeleteClosesGap | src/main/java/lk/ijse/api/LecturerHttpController.java:131-150 | a successful delete at rank `r` keeps ranks below `r`, lowers ranks above `r` by exactly one, and adds nothing else; the table goes from `1..N` to `1..N-1` and loses only that lecturer; the other table is untouched and the lecturer row is gone |
| ControllerProofs.DeleteStatementsKeepTables | src/main/java/lk/ijse/api/LecturerHttpController.java:137-141 | the delete statements keep both tables dense with distinct ids |
| ControllerProofs.DeleteStatementsKeepPartition | src/main/java/lk/ijse/api/LecturerHttpController.java:137-146 | after the delete statements, every remaining lecturer still has a rank row in exactly one table |
| ControllerProofs.DeleteStatementsValid | src/main/java/lk/ijse/api/LecturerHttpController.java:122-146 | the delete statements for an existing lecturer keep the ledger invariant |
| ControllerProofs.DeletePreservesValid | src/main/java/lk/ijse/api/LecturerHttpController.java:113-160 | delete keeps the ledger invariant, whether it commits, rolls back or finds nothing |
| ControllerProofs.DeleteSucceedsIff | src/main/java/lk/ijse/api/LecturerHttpController.java:113-153 | delete succeeds exactly when the lecturer exists, no reached statement throws, and its picture, if any, is in the bucket |
| ControllerProofs.DeleteUnrankedShiftsPartTime | src/main/java/lk/ijse/api/LecturerHttpController.java:131-141 | a lecturer without any rank row is deleted at part-time rank 0: every part-time rank moves down, rank 0 appears, and the table is no longer dense |
| ControllerProofs.DeleteCommitFailureDanglesPicture | src/main/java/lk/ijse/api/LecturerHttpController.java:148-153 | a commit failure after the blob delete restores the lecturer row but not its blob, so the row names a missing picture |
| ControllerProofs.DeleteCommitFailureBlocksRetry | src/main/java/lk/ijse/api/LecturerHttpController.java:148-153 | after a delete fails at its commit, every retry fails at the blob lookup and changes nothing, so the lecturer can no longer be deleted |
| ControllerProofs.DeleteNeedsStoredPicture | src/main/java/lk/ijse/api/LecturerHttpController.java:148-153 | a lecturer whose picture is missing from the bucket cannot be deleted: the step fails and everything is unchanged |
| ControllerProofs.DeleteKeepsPicturesStored | src/main/java/lk/ijse/api/LecturerHttpController.java:146-150 | a committed delete removes the lecturer's own blob and leaves every other lecturer's picture in the bucket |
| ControllerProofs.JoinDenseTable | src/main/java/lk/ijse/api/LecturerHttpController.java:165-179 | joining a dense table in rank order gives one entry per row, the one at position `i` being the lecturer at rank `i + 1` with its stored fields |
| ControllerProofs.ListLength | src/main/java/lk/ijse/api/LecturerHttpController.java:163-194 | with both tables dense and every ranked id a lecturer, the listing has one entry per rank row |
| ControllerProofs.ListAt | src/main/java/lk/ijse/api/LecturerHttpController.java:165-193 | position `i` of the listing is the full-time lecturer at rank `i + 1`, or past the full-time table the part-time lecturer at the matching rank |
| ControllerProofs.ListFullTime | src/main/java/lk/ijse/api/LecturerHttpController.java:165-179 | the listing opens with the full-time lecturers in ascending rank, labelled "full-time", with their stored picture names |
| ControllerProofs.ListPartTime | src/main/java/lk/ijse/api/LecturerHttpController.java:180-193 | the listing continues with the part-time lecturers in ascending rank, labelled "part-time", and ends there |
| ControllerProofs.ListOrder | src/main/java/lk/ijse/api/LecturerHttpController.java:163-194 | in a ledger where every lecturer is ranked once, the listing has one entry per lecturer: full-time by rank, then part-time by rank, each correctly labelled |
| ControllerProofs.FullTimeScenario | src/main/java/lk/ijse/api/LecturerHttpController.java:39-160 | create A and B as "full-time", delete A, create C as "Full-Time": the full-time table goes `[A:1]`, `[A:1, B:2]`, `[B:1]`, `[B:1, C:2]`, and the part-time table stays empty |

## Left out

- HTTP routing, annotations, status codes and the `RuntimeException` wrapping are framework glue. A thrown exception during create or delete is modelled as an `Error` value.
- LecturerController.ListLecturers: a failing query (the `SQLException` wrapped at lines 197-199) is not modelled, because the listing changes no state; the model always returns a sequence.
- The Hikari pool, JDBC statements and result sets, SQL text and auto-commit toggling are left out. The transaction is the `Db` value: kept on commit, restored on rollback.
- Google Cloud Storage is modelled only as a set of blob names. Upload streams, content types and blob contents are left out. URL signing is a foreign call, modelled as `SignedUrl(name)`.
- Concurrent requests are left out. The controller has no locking, and the model is sequential: two creates that read the same maximum rank are not modelled.
- `updateLecturerDetails` is left out: it is an empty stub that only prints.
- `LecturerReqTO` and `LecturerResTO` are not part of this model. They are treated as plain records with the fields the controller uses. Bean validation on the request is not modelled.
- A rollback or a `setAutoCommit` call that itself fails is not modelled.
- Create: ids and ranks are unbounded integers. Java's 32-bit `int` overflow of the generated key and of `rank + 1` is not modelled, because it needs over two billion rows.
- Create: the lecturer type is a string and never null. In the code a null type throws at line 67, after the lecturer INSERT has spent the generated key, and the transaction rolls back. That is the model's failure at `ReadMaxRank`, but the model has no null type that leads there.
- Case mapping: the case table is exact only for characters whose case mappings land in ASCII, which is all a comparison with "full-time" needs. It is not Java's full Unicode case table.
- Delete: a lecturer with more than one row in the same rank table makes the two outer joins return several result rows, and the code reads only the first. The model reads the first matching row of each table, which need not be the row the database returns first. A valid state has no such lecturer. A lecturer with one row in each table gives one result row carrying both ranks, and the model handles that case as the code does.
- Delete: the ids of deleted lecturers are never reused. The model spends the id counter on every insert, including one that is rolled back or whose generated key fails to be read, as an auto-increment key does. The database engine's other gap behaviour is not modelled.
- LecturerController.Join: rows that tie on rank keep table order, where SQL leaves the order unspecified. Ties cannot occur in a dense table.
