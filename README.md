# glaman: a model of the Glacier sync tool

glaman keeps a local document tree in an Amazon Glacier vault. Every file is encrypted with AES-CTR under a key derived from a password, uploaded in 1 MiB-leaf multipart chunks, and recorded in a SQLite catalog. The catalog holds the file's name, MD5 digest, mtime, size, archive id and lock flag, plus the IV. A **sync** uploads files the catalog does not know. It relinks files that moved (same digest, new name). For locked entries whose file has gone, it requests a retrieval job, downloads the job output in ranged chunks, decrypts it and checks its digest. **clean** deletes local files that are archived, unlocked and unchanged, then removes the directories left empty. **gup** registers a list of files. **lock**/**unlock** set the lock flag. Two restore paths are also modelled. **extract** restores files from a local chunk database. **RubyDecrypt** decrypts files written by an older Ruby tool, which used OpenSSL's `Salted__` AES-256-CBC envelope.

The model is in Dafny, one module per component:

- `common.dfy` (module Common): bytes, errors, results, `Flatten`, `%x`, arrival orders. It also holds the uninterpreted `Primitives`: MD5, SHA-256, tree hash, AES block encrypt/decrypt, the CTR keystream and UTF-8.
- `paths.dfy` (Paths): `filepath.Join`/`Split` for the path shapes the program builds, `%03d`.
- `disk.dfy` (Disk): the file system as a class. It holds a map from path to bytes and mtime, a set of directories and a set of paths whose system calls fail. Its methods are the `os` calls the program makes.
- `chunking.dfy` (Chunking): the `[start,end]` range planner shared by upload and download.
- `upload.dfy`, `download.dfy` (Upload, Download): `glacier-manager/upload.go` and `download.go`.
- `crypt.dfy` (Crypt): `util/crypt.go`.
- `catalog.dfy` (Catalog): `model/file_entry.go` and `model/ex_request.go`, as a class holding the tables.
- `config.dfy` (Config): `util/config.go`.
- `regist.dfy`, `sync.dfy`, `clean.dfy`, `extract.dfy`, `gup.dfy`, `lockcmd.dfy`: the corresponding files under `cntmgr/` and `subcmd/`.
- `rubydec.dfy` (RubyDec): `util/rubydec.go`.

Code that changes state step by step is a Dafny method with loops and invariants. Each such method is proved equal to a specification function, and the properties are lemmas about that function. Go panics and retry loops that never end are the errors `Panic` and `Hang` (together `Fatal`). The loops that drop or step over errors still stop on them, since in the program a panic unwinds the process and a hang never returns. Worker pools are modelled as "every chunk yields exactly one result, received in an arbitrary order" (`IsOrder`).

## Model

| member | source | states |
|---|---|---|
| Common.HexInjective | subcmd/sync.go:216-219 | Equal `%x` renderings come only from equal byte strings, so comparing hex digests compares the digests. |
| Common.OrderCovers | glacier-manager/upload.go:95-105 | An arrival order of n results delivers the result of every index below n. |
| Paths.Split | glacier-manager/download.go:125 | `filepath.Split` yields a directory part and a file part that concatenate to the path, and the file part holds no '/'. |
| Paths.Pad3RoundTrip | glacier-manager/download.go:126 | The `%03d` rendering of a chunk number reads back as that number. |
| Paths.Pad3Injective | glacier-manager/download.go:126 | Two chunk numbers with the same `%03d` rendering are equal. |
| Disk.GetMD5 | util/util.go:11-23 | Succeeds exactly when the path is a readable regular file, and then returns the hex MD5 of its bytes. |
| Chunking.PlanShape | glacier-manager/upload.go:57-66 | The planner yields ceil(size/C) chunks (none for size 0). Ids run first, first+1, ..., and chunk k starts at k*C. |
| Chunking.PlanInterior | glacier-manager/upload.go:59-60 | Every chunk before the last ends at start + C - 1, and the next chunk starts right after it. |
| Chunking.PlanLast | glacier-manager/upload.go:59-63 | The last chunk holds 1 to C bytes. Its end is size - 1, except when the remainder is exactly C - 1: then the `pe > size` clamp does not fire and the end is size. |
| Chunking.PlanLastRemainder | glacier-manager/download.go:54-60 | The last chunk starts at the largest multiple of C below size: it holds size mod C bytes, or C when C divides size. |
| Chunking.PlanLastOverhang | glacier-manager/download.go:55-58 | For C >= 2, the last end lies past the object exactly when size mod C == C - 1. |
| Chunking.PlanCovers | glacier-manager/download.go:52-61 | Every byte of the object lies in exactly one planned chunk, chunk b / C. |
| Chunking.SlicesAt | glacier-manager/download.go:129 | The bytes fetched for chunk k are its range, cut at the end of the object as an HTTP byte range is. |
| Chunking.PlanSlicesConcatenate | glacier-manager/download.go:92-108 | The planned ranges, each cut at the end of the object and concatenated in ascending order, give back the whole object, whatever the clamp did. |
| Chunking.LastSlice | glacier-manager/download.go:52-61 | The last range of a non-empty object runs to its last byte. |
| Upload.PlanParts | glacier-manager/upload.go:57-66 | The planning loop appends exactly the chunks of the plan with ids 0, 1, .... |
| Upload.ReadAtLeast | glacier-manager/upload.go:151-156 | A successful read returns between min and the buffer size bytes (0 when min <= 0) and never reads past the file. |
| Upload.LeavesCover | glacier-manager/upload.go:159-167 | The 1 MiB leaves of a part cover its bytes contiguously and in order. Each holds 1 to 1 MiB bytes, and there are ceil(n / 1 MiB) of them. |
| Upload.LeafHashes | glacier-manager/upload.go:159-167 | The leaf loop yields the SHA-256 of every leaf of the part, in order. |
| Upload.ProcessChunk | glacier-manager/upload.go:137-199 | The part's result and the part it sends are those of `ChunkOutcome`: open/seek, read, hash, validate, send. |
| Upload.ChunkOutcomeShape | glacier-manager/upload.go:144-198 | Every path produces exactly one result carrying the chunk's id. The result is a success exactly when a part is sent. A sent part carries the bytes read from the chunk's start, the chunk's own range, and the hex tree hash of its leaf digests. |
| Upload.FirstErrorIsFirst | glacier-manager/upload.go:96-105 | The collected error is that of the earliest failed result in arrival order. There is one exactly when some result failed. |
| Upload.CollectResults | glacier-manager/upload.go:95-105 | The collection loop stops at the first error and otherwise stores each hash at the index of its chunk id. |
| Upload.ArrivedIds | glacier-manager/upload.go:71-105 | Whatever the arrival order, the result received at step j belongs to the part the order names there, so each part's id arrives once. |
| Upload.ProcessParts | glacier-manager/upload.go:76-92 | The workers process every planned part once, in arrival order; the results and the parts sent are those of `ProcessChunk` for each part in that order. |
| Upload.CollectedInIdOrder | glacier-manager/upload.go:96-105 | Storing each hash at its id yields the hashes in chunk-id order, whatever order they arrived in. |
| Upload.UploadFile | glacier-manager/upload.go:34-134 | A missing file or a failed initiate returns before any part is planned or sent. Otherwise the upload aborts and returns the first error when any part fails. Only when all parts succeed is complete called, with the tree hash of the id-ordered hashes and the size, and its archive id is returned. |
| Upload.PlannedRead | glacier-manager/upload.go:151-156 | For a planned part the read never fails. It yields the whole range, except for a one-byte last part, where min = end - start = 0 and the read yields nothing. |
| Upload.PlannedPartBody | glacier-manager/upload.go:151-176 | The body a planned part sends when it opens and validates: its range, or nothing for a one-byte last part. |
| Upload.UploadAbortsIff | glacier-manager/upload.go:99-115 | The upload aborts exactly when the file is non-empty and some part cannot open its file or fails validation. Which error is reported depends on arrival order; whether one is reported does not. |
| Upload.BodyIsSlice | glacier-manager/upload.go:140-176 | A part that opens and validates sends its planned range cut at the end of the file. A one-byte part, which can only be the last, sends nothing. |
| Upload.UploadedBodies | glacier-manager/upload.go:137-199 | When every part succeeds, the part bodies in id order are the file's bytes. The exception is size mod C == 1: then the last one-byte part is sent empty and the bodies are the file without its last byte. |
| Download.TempNameInjective | glacier-manager/download.go:125-126 | Different chunks of one destination never share a temp file. |
| Download.TempNameNotTarget | glacier-manager/download.go:125-126 | No temp file is the destination itself. |
| Download.TempNameNotDir | glacier-manager/download.go:43-44 | Every temp file name is longer than the destination's directory, so no temp file is among the directories MkdirAll creates. |
| Download.PlanSpecs | glacier-manager/download.go:49-61 | The planning loop appends exactly the chunks of the plan with ids 1, 2, .... |
| Download.DownloadChunk | glacier-manager/download.go:120-147 | Succeeds, or hangs in its retry loop. It succeeds exactly when the temp path is neither faulty nor a directory, and then the temp file holds the chunk's range. Nothing but that temp path changes, and a directory can go only from there (os.Remove of an empty one). |
| Download.WriteTemp | glacier-manager/download.go:132-143 | The temp file write with its retry: a failed create is followed by one remove and a second create, and a second failure never returns. It succeeds exactly when the temp path is neither faulty nor a directory, and then only that temp file changed, now holding the body. |
| Download.CleanupTemp | glacier-manager/download.go:112-118 | Removes the temp files of exactly chunks 1..n (those that can be removed) and touches nothing else. |
| Download.AppendOne | glacier-manager/download.go:161-171 | Appends the contents of chunk i's temp file to the destination. It fails, changing nothing, exactly when that temp file cannot be opened or copied. The error is then tagged with i. |
| Download.MergeTemps | glacier-manager/download.go:92-108 | Creates the destination and appends the temp files of chunks 1..n in ascending order. It succeeds exactly when every append can. On the first failure it returns that position's error, and the destination holds the earlier temp files only. |
| Download.MergedIsArchive | glacier-manager/download.go:92-108 | Temp files that hold the planned ranges merge into exactly the archive. |
| Download.FetchChunks | glacier-manager/download.go:71-87 | Every planned chunk is fetched into its own temp file unless one hangs. Nothing outside the temp files 1..n changes. |
| Download.FetchOne | glacier-manager/download.go:77-84 | One worker fetch of chunk k+1. Only that temp file changes; on success it holds the chunk's range and the earlier temp files keep theirs. A hang comes only from a faulty temp path or one that was a directory. |
| Download.FetchAndMerge | glacier-manager/download.go:63-109 | Only the destination and the temp files of chunks 1..n change. On success the destination holds exactly the archive (empty for a zero-size one). A hang comes only from a temp path that is faulty or a directory. Without a hang the deferred cleanup leaves no temp file of chunks 1..n. With a usable destination it passes exactly when no append fails. |
| Download.MergeAndClean | glacier-manager/download.go:69-118 | Once every temp file holds its range: the merge and the deferred cleanup. The destination then holds the archive on success, no temp file of chunks 1..n is left, and it succeeds exactly when no append fails (for a destination that is neither faulty nor a directory). |
| Download.DownloadFile | glacier-manager/download.go:29-110 | A describe error, or a job not yet complete (ErrJobNotComplete), returns before any directory or file is touched. Otherwise MkdirAll of the directory part runs first, and its failure (including an empty directory part, which does not exist) returns with no file touched. After it only the target and its temp files change; on success the target holds the archive and no temp file is left. |
| Disk.MkdirAllRun | glacier-manager/download.go:43-46 | os.MkdirAll of the destination's directory. On success that directory exists. MkdirAll("") fails with not-exist, so a destination without a '/' is never fetched. Missing ancestors are created first; each created directory is a new prefix of the path. A regular file on the way fails it, and directories made before a failure stay. |
| Disk.FileSystem.MkdirAll | glacier-manager/download.go:43-46 | Returns MkdirAllRun's outcome and adds exactly its directories; files are untouched. |
| Crypt.MakeIV | util/crypt.go:15-21 | Reads one AES block from the random source, or fails when fewer bytes remain. Each call consumes its bytes, so two calls never draw the same ones. |
| Crypt.XorSplit | util/crypt.go:44-45 | The CTR keystream runs on across buffers: transforming two pieces, the second at the position where the first ends, is transforming their concatenation. |
| Crypt.XorTwice | util/crypt.go:44-45 | The same keystream at the same position undoes itself. |
| Crypt.ReadErrorRule | util/crypt.go:48-55 | A read that returns no bytes ends the loop as a success, whatever error comes with it. A read that returns bytes with an error ends it with that error, and none of its bytes are taken. |
| Crypt.FileReadsRun | util/crypt.go:48-66 | Reading a regular file without faults takes exactly its bytes, in 16 KiB buffers, and ends cleanly. |
| Crypt.EncryptLoop | util/crypt.go:94-113 | Encrypt's loop writes the CTR transform of the bytes taken into the new output file, and its digest covers those plaintext bytes. |
| Crypt.DecryptLoop | util/crypt.go:48-66 | Decrypt's loop writes the CTR transform of the bytes taken into the new output file, and its digest covers the decrypted bytes. |
| Crypt.DecryptDigestCoversOutput | util/crypt.go:57-62 | A successful Decrypt returns the MD5 of exactly the bytes it wrote. |
| Crypt.EncryptDecryptRoundTrip | util/crypt.go:23-115 | Decrypting what Encrypt wrote, with the same key and IV, gives back the plaintext, and both calls return the plaintext's MD5. |
| Crypt.Encrypt | util/crypt.go:71-115 | An unopenable input or an uncreatable output is an error. Otherwise the output file holds the loop's bytes and the result is its digest or error, and nothing else on disk changes. |
| Crypt.Decrypt | util/crypt.go:23-69 | The same as Encrypt, for the decrypting loop. |
| Crypt.DecryptIntoErrors | util/crypt.go:23-69 | Decrypting a regular file fails only with the output path's fault, the output being a directory, a bad key, a bad IV (a panic in NewCTR) or a write failure. |
| Catalog.Scan | model/file_entry.go:31-48 | A row becomes a FileEntry field by field, with an empty comment. It fails, with the column named, exactly when md5sum or archive_id is NULL. |
| Catalog.ScanWithComment | model/file_entry.go:50-74 | Scan plus the joined comment, a NULL comment becoming "". It fails exactly when Scan does. |
| Catalog.Select | model/file_entry.go:109-125 | A query returns exactly the rows matching its where-clause, no more rows than the table holds. |
| Catalog.FirstMatch | model/file_entry.go:76-78 | QueryRow's row is the first matching row in table order, or none. |
| Catalog.FirstMatchIsFirstSelected | model/file_entry.go:76-87 | The single-row query finds a row exactly when the full query returns one, and it is the full query's first row. |
| Catalog.ScanAll | model/file_entry.go:116-124 | Scanning a result set succeeds exactly when every row scans, with one entry per row in order. Otherwise the first failing row's error is returned and no partial list. |
| Catalog.Catalog.FindEntrySingle | model/file_entry.go:76-87 | None exactly when no row matches (sql.ErrNoRows is not an error). Otherwise the scan of the first matching row: its entry, or its error. |
| Catalog.Catalog.FindEntryByName | model/file_entry.go:89-91 | The single-row lookup by name, and an entry found carries that name. |
| Catalog.Catalog.FindEntryByMD5 | model/file_entry.go:93-95 | The single-row lookup by digest, and an entry found carries that digest. |
| Catalog.Catalog.FindEntryByArchiveId | model/file_entry.go:97-99 | The single-row lookup by archive id, and an entry found carries that id. |
| Catalog.Catalog.FindEntryByQuery | model/file_entry.go:109-125 | The rows loop returns the scan of every matching row, or the first scan error. |
| Catalog.Catalog.LockedEntry | model/file_entry.go:101-103 | The query with lock = 1, and every entry returned is locked. |
| Catalog.LockedRowsExactly | model/file_entry.go:101-103 | A row is among LockedEntry's rows exactly when it is in the table with lock 1. |
| Catalog.Catalog.AllEntry | model/file_entry.go:105-107 | The query with no where-clause: every row, in table order. |
| Catalog.Catalog.InsertEntry | cntmgr/regist.go:72-76 | Appends a row with the next rowid, the digest, name, mtime and size, a NULL archive id and lock 0, or fails and changes nothing. |
| Catalog.Catalog.InsertIv | cntmgr/regist.go:84-87 | Stores the IV under the entry id, or fails, changing nothing, when the id already has one (primary key) or the store refuses it. |
| Catalog.Catalog.GetIV | model/file_entry.go:149-156 | The stored IV of the id, or an error when there is no row. |
| Catalog.Catalog.UpdateName | model/file_entry.go:158-161 | Changes only the name of the row with that id. No such row is not an error. |
| Catalog.Catalog.UpdateLock | model/file_entry.go:163-166 | Changes only the lock of the row with that id. |
| Catalog.Catalog.SetArchiveId | cntmgr/regist.go:54-57 | Changes only the archive id of the row with that id. |
| Catalog.PendingRowFails | model/file_entry.go:37-43 | A row whose archive id is still NULL makes the lookup that reaches it fail, and so does the list query. |
| Catalog.Catalog.FindExRequestById | model/ex_request.go:15-27 | None exactly when the id has no request. Otherwise the request with its job id and start time. |
| Catalog.Catalog.InsertRequest | model/ex_request.go:29-33 | Records the job id with the current time under the entry id. Fails, changing nothing, when a request already exists (primary key) or the store refuses it. |
| Catalog.Catalog.DeleteRequest | model/ex_request.go:35-38 | Removes only that id's request. An absent request is not an error. |
| Config.ReadSettings | util/config.go:38-46 | The rows loop builds the map `Settings` of the config rows. |
| Config.SettingsKeys | util/config.go:38-46 | A key is set exactly when some row carries it. |
| Config.LaterRowWins | util/config.go:45 | When a key repeats, the last row's value is kept. |
| Config.CheckRequired | util/config.go:49-54 | Passes exactly when region, vault, password and basedir are all set. Otherwise it reports the first one missing, in that order. |
| Config.GetKey | util/config.go:63-73 | An empty password is refused. Otherwise the key is the 32-byte SHA-256 of the password's bytes. |
| Config.Config.GlacierManager | util/config.go:75-80 | Fails exactly when there is no cached manager and opening the AWS session fails, with that error. Otherwise it returns the cached manager, or a new one for account "-" and this vault and region. |
| Config.NewConfig | util/config.go:31-61 | A failed query is returned. A missing required key is reported first, then an empty password. Otherwise the config carries the region, vault, document root and derived key, with no cached manager. |
| Regist.RecordPlainFileMeta | cntmgr/regist.go:63-90 | Stats the file, inserts its file_entry row under the next id, then its IV under the same id. The first failure ends it, and the entry row stays when the IV insert fails. |
| Regist.RegisteredRows | cntmgr/regist.go:63-90 | The rows before a registration are untouched. Once the entry insert happened, the table holds exactly one more row with the next id, the file's name, digest, mtime and size, lock 0, and an archive id only after a successful upload. |
| Regist.InsertedRow | cntmgr/regist.go:63-90 | A registration whose entry insert happened appends exactly one row: the next id, the name, the digest, the file's size and mtime, lock 0, and the archive id only when the upload and back-fill passed. |
| Regist.Publish | cntmgr/regist.go:35-60 | After the encryption: record, create the manager, upload the `.enc` file, back-fill the archive id. A failed manager is returned like a failed upload, after the rows were inserted and with no call made. `.enc` is removed however this ends, and nothing earlier is rolled back. |
| Regist.SealAndPublish | cntmgr/regist.go:27-60 | Encrypts the file to `.enc` with the given IV. A failed encryption returns its error with no row and no call. Otherwise the rows and the outcome are those of recording, uploading and back-filling; an upload call happens exactly when one was made, and `.enc` is gone afterwards. |
| Regist.RegisterToArchive | cntmgr/regist.go:19-61 | Without 16 random bytes it fails with the read error and changes nothing. Otherwise the IV is drawn, the file is encrypted, and on success the steps of Publish follow. Old rows are kept, and a successful registration of a new name makes the name findable. |
| Regist.RegistrationEffect | cntmgr/regist.go:19-90 | A registration keeps every earlier row, and after success a name no row had is found. |
| Regist.RegisteredIsFound | cntmgr/regist.go:38-57 | After a successful registration of a name no row carried, the lookup by that name finds the new row and it scans. |
| Regist.FailedUploadIsUnscannable | cntmgr/regist.go:38-52 | After an upload that failed once the rows were inserted, the lookup by that name finds the new row and cannot scan it, since its archive id is NULL: no rollback. |
| Regist.RegisterKeepingRows | cntmgr/regist.go:19-61 | RegisterToArchive as one registration (`RegisteredOnce`): earlier rows are kept. With fewer than 16 random bytes it fails with the read error, changes nothing and empties the pool; otherwise exactly 16 bytes are drawn. On success there is one new row under the name, with an archive id and a digest, its IV is the drawn one, and a name no row had is found at the new row. |
| Sync.Decide | subcmd/sync.go:71-102 | The decision for one file. It is tracked exactly when the lookup by name finds an entry. It is relinked to the first entry with the file's digest when the name is unknown. It is registered as new when neither matches. A failed lookup or digest is an error. |
| Sync.RelinkIsFound | subcmd/sync.go:95-101 | After renaming the first entry with a digest to a name no entry had, that name finds that entry and it still scans. |
| Sync.RelinkReleasesOldName | subcmd/sync.go:99 | Renaming an entry away from a name no other entry carries leaves that name unmatched. |
| Sync.MovedFileIsRelinked | subcmd/sync.go:85-101 | A moved file is relinked, not uploaded again. Afterwards its new name finds the old entry. |
| Sync.KeepInGlacier | subcmd/sync.go:71-113 | Follows Decide. A dry run changes nothing. A run that passes leaves the file findable by name, by relinking or by registering. A real run on a new file is exactly one registration (`RegisteredOnce`): earlier rows are kept, the random pool loses one IV, and on success there is one new row under the name, with an archive id and a digest, whose IV is the one drawn. |
| Sync.FileVisits | subcmd/sync.go:52-60 | The visits keepInGlacier is called for are regular files other than the root, in walk order. |
| Sync.KeepFile | subcmd/sync.go:56-60 | keepInGlacier for one visited file. A dry run changes nothing, and its outcome is fixed by the decision: a failed lookup or digest is the error, anything else passes. |
| Sync.CheckUpl | subcmd/sync.go:39-66 | The walk stops at the first visit with an error or at the first file that fails (`StoppedAt`), and the outcome is that error. A pass means no visit had an error, and then `handled` is every regular file visited, in walk order. A dry run changes nothing, and its outcome is exactly `DryRun`: the first walk error, or the first file whose lookup or digest fails, in walk order. No request or comment changes. |
| Sync.RequestExtractJob | subcmd/sync.go:167-180 | Creates the manager, starts a retrieval job for the entry's archive and records it, stamped with the clock. A failed manager or a refused job returns that error and records nothing. A job started records its request exactly when none was pending and the store accepts it. |
| Sync.Restore | subcmd/sync.go:204-231 | Decrypts `.enc` with the entry's IV, checks the digest against the entry, restores the mtime and drops the request. A missing IV fails with no file touched. A decryption error is returned. The outcome is the digest mismatch error exactly when decryption succeeded with another digest. With the entry's digest it passes, and the request goes unless the store refuses (that failure is not reported). On success the file has the entry's digest and mtime. No directory and no other file changes. |
| Sync.RestoreDownloaded | subcmd/sync.go:204-231 | Restore right after the download: when `.enc` holds the archive and the file's path is a directory exactly when it was before the download, the decryption is that of the archive's bytes, and the outcome and the request are those of `RestoreOutcome`. |
| Sync.RestoreAndRemove | subcmd/sync.go:190-231 | Restore after the download, then the deferred removal of `.enc`. The outcome and the request are those of `RestoreOutcome` on the archive. Afterwards `.enc` is gone, only the file and `.enc` changed, and success leaves the entry's digest and mtime on the file. |
| Sync.EncSideNames | subcmd/sync.go:188-193 | Downloading `<file>.enc` never makes or removes the file's own path: the directories MkdirAll creates for `.enc` are shorter than the file's path, and the download's temp names are longer. |
| Sync.FetchEnc | subcmd/sync.go:188-201 | The download of retrieve into `<file>.enc`. A describe error or a job still running is returned with nothing touched. After a completed job it never returns ErrJobNotComplete, the file's own path stays a directory exactly when it was one, and on success `.enc` holds the archive. Only files in the entry's footprint change. |
| Sync.Retrieve | subcmd/sync.go:182-232 | A failed manager returns its error before anything is touched. Otherwise the outcome is `Fetched`'s: a describe error is returned, a job still running passes, a failed download is returned, and after a completed download the outcome and the request are restore's on the archive (the digest mismatch error exactly when the archive decrypts to another digest). Unless the download hangs, `.enc` is gone afterwards. The request goes only when the file was restored, and no file outside the entry's footprint changes. |
| Sync.FetchAndRestore | subcmd/sync.go:188-232 | Retrieve once the manager exists: the download to `.enc`, restore from it, and the deferred removal of `.enc`, with the outcome `Fetched` describes. |
| Sync.ProcessExtract | subcmd/sync.go:142-165 | A dry run does nothing and passes. Without a pending request it starts a job, and the request is recorded exactly when the job starts and the store accepts it; no file changes. With one it retrieves, with the outcome `Retrieved` describes. Only the entry's own request and the entry's own files can change. |
| Sync.FootprintFrame | subcmd/sync.go:182-232 | A change confined to the entry's file, its `.enc` and the `.enc` download's temp files is a change within the entry's footprint. |
| Sync.PairFrame | subcmd/sync.go:190-231 | A change confined to the entry's file and its `.enc` is a change within the entry's footprint. |
| Sync.AgreeBeyondStep | subcmd/sync.go:125-137 | A step that changes only one listed entry's files keeps the whole change within the listed entries' footprints. |
| Sync.CheckEntry | subcmd/sync.go:126-135 | One turn of checkDown's loop. A stat failure other than non-existence ends the loop with that error and changes nothing. Otherwise the turn is a `Step`: an existing file, or a dry run, changes nothing and passes; a missing file is processed. |
| Sync.TurnsGrow | subcmd/sync.go:125-137 | A trace of turns whose last turn did not stop the loop grows by a Step on the next entry. |
| Sync.TurnsFrame | subcmd/sync.go:125-137 | Over a whole trace of turns, only requests of the entries and files of their footprints change. |
| Sync.Advance | subcmd/sync.go:125-137 | One pass of the loop body. An entry that cannot be examined, or a panic or hang, ends the loop, and then the trace is a complete `DownRun`. Otherwise the trace grows by one Step. |
| Sync.CheckEntries | subcmd/sync.go:125-139 | The loop over the locked entries: the trace of moments is a `DownRun`. Every turn is a Step, and no turn but the last stops the loop. The loop ends at a panic or hang (returned), at an entry that cannot be examined (its stat error), or after the last entry with success, the errors of processExtract being dropped. |
| Sync.CheckDown | subcmd/sync.go:118-140 | A failed locked-entry query is returned with nothing touched. Otherwise the run is the `DownRun` of the locked entries, from the state before to the state after: each missing file is processed in turn, its errors dropped (a panic or a hang still ends the run), and an entry whose file cannot be examined ends the check with that error. Only requests of locked entries change, and only files of locked entries (the file, its `.enc`, its temp files) change. |
| Sync.Sync | subcmd/sync.go:19-34 | checkUpl, then checkDown only if it passed. When the upload check fails, its error is returned with no request touched, and the walk stopped at that error. When it passes, every regular file visited was handled and the result is checkDown's: the locked query's error, or the `DownRun` over the locked entries ending in the final state. A dry run changes nothing, and its upload outcome is `DryRun`. |
| Clean.SortDirs | subcmd/clean.go:17-27 | Sorting with that Len/Swap/Less orders the directory list longest path first, as a permutation of it. |
| Clean.InsertAt | subcmd/clean.go:17-27 | One insertion pass: with a[..i] longest first, moving a[i] left past shorter paths leaves a[..i+1] longest first, as a permutation. |
| Clean.InnerDirsFirst | subcmd/clean.go:55-61 | In a list sorted longest first, a directory comes after every directory inside it, so children are emptied before their parent is examined. |
| Clean.DeletableIsArchived | subcmd/clean.go:66-87 | A deletable file has an archived copy: the first row of its name scans, has an archive id and lock 0, and records the digest of the file's current bytes. |
| Clean.CleanFile | subcmd/clean.go:66-87 | A file is deleted only when it is deletable, and a deletable file at a usable path is deleted. A locked entry leaves the file alone, a failed lookup is the error, and a file without an entry dereferences nil: a panic. |
| Clean.RemoveIfEmpty | subcmd/clean.go:92-104 | An unreadable directory is an error. A non-empty one is kept. An empty one is removed. |
| Clean.CleanVisit | subcmd/clean.go:34-53 | One visit of the walk: a regular file is cleaned and its error dropped, anything else is left alone. Only deletable files go, and the visit's file, if deletable at a path whose stat works, is gone afterwards (`Cleaned`). |
| Clean.WalkClean | subcmd/clean.go:33-53 | The walk collects the directories other than the root, in walk order, up to the first visit with an error. It deletes only deletable files and stops on the first walk error (or a panic). `reached` counts the visits whose callback ran: all of them on success, up to the erring visit otherwise. For every visit reached, a deletable file at a usable path is gone (`Cleaned`), whatever later visits did. |
| Clean.CleanedKept | subcmd/clean.go:33-53 | The turn of one visit keeps earlier visits cleaned, since files only go, and cleans that visit against the files before the walk. |
| Clean.RemoveEmptyDirs | subcmd/clean.go:55-61 | removeIfEmpty on the directories sorted longest first. Only listed directories go, each with nothing left directly inside it, and no file changes. When it passes, every listed directory was readable, and every listed directory still there has something directly inside it, since nothing removed after its turn can lie directly inside it (with "." listed this need not hold, and is not claimed). When it fails, the error is that of reading a listed directory, and no directory shorter than it was removed: the loop stopped there. |
| Clean.RemoveSorted | subcmd/clean.go:56-61 | The directory loop over a list sorted longest first, with the same promises as RemoveEmptyDirs stated over that list. |
| Clean.RemoveListed | subcmd/clean.go:56-61 | One turn of the directory loop removes at most that directory, only when nothing is directly inside it, and a failure changes nothing and is the error of reading it. When it passes and the directory stays, something lies directly inside it. |
| Clean.OccupiedKept | subcmd/clean.go:55-61 | A turn of the sorted loop leaves every directory examined before it, if still there, with something inside: what the turn removes is no shorter, so it is not directly inside them. |
| Clean.StillOccupied | subcmd/clean.go:92-104 | Removing a directory that does not lie directly inside d leaves d with something inside it. |
| Clean.StoppedAt | subcmd/clean.go:55-61 | Stopping at a turn of a list sorted longest first, every directory removed so far is at least as long as the one the loop stopped on. |
| Clean.Clean | subcmd/clean.go:29-64 | Only deletable files and collected, empty directories go. Every file the walk reached that was deletable at a usable path is gone. When the run passes, every collected directory that is left has something directly inside it. The walk's own error is returned only when no directory was collected; otherwise a non-fatal failure is the error of reading a collected directory, since the directory loop overwrites the walk's error. |
| Clean.DirVisitsNoDot | subcmd/clean.go:39-49 | "." is never a collected directory: the root is skipped, and joining the root with another name never gives ".". |
| Extract.ExtractRun | subcmd/extract.go:107-151 | After the .tmp file exists, a bad key fails first, then an IV that is not 16 bytes panics, then a failed query. Otherwise the chunks up to the first scan error are decrypted and written. Success exactly when every chunk scans, and then the digest is the hex MD5 of what was written, "" otherwise. |
| Extract.ChunkAtRunningPosition | subcmd/extract.go:136-146 | Each chunk is decrypted at the keystream position where the chunks before it end. |
| Extract.ExtractRoundTrip | subcmd/extract.go:107-151 | Chunks that hold the CTR encryption of a file extract to that file, with its digest. |
| Extract.ChunkLoop | subcmd/extract.go:136-146 | The rows loop writes into the open .tmp file exactly what ExtractRun says. |
| Extract.DecryptInto | subcmd/extract.go:122-150 | On the created .tmp file: a bad key, a bad IV or a failed query ends the run with that error; otherwise the file and the digest are what ExtractRun says. |
| Extract.CreateAndDecrypt | subcmd/extract.go:114-150 | os.Create of .tmp fails on a faulty path or a directory and then changes nothing; otherwise .tmp holds what ExtractRun wrote and the digest is its digest. |
| Extract.ExtractFromDB | subcmd/extract.go:107-151 | Creates the name's directory (its error ignored), then the .tmp file. A failed create is the error. Otherwise the .tmp file holds ExtractRun's bytes, even on failure. |
| Extract.ExtractOne | subcmd/extract.go:63-105 | `OneExtracted`: the name's directory is made (its error dropped) and .tmp receives ExtractRun's bytes. A failure there or a digest other than the index's is returned with .tmp left behind. A target whose stat fails returns that error. An existing file or directory at the target is refused with nothing renamed. An absent target passes: .tmp becomes the target, holding the written bytes with the stored mtime, and its digest is the index's. |
| Extract.SubCmdExtract | subcmd/extract.go:16-61 | A failed index query is returned with nothing touched. Otherwise the run is an `Extraction` from the disk before to the disk after: each row reached is extracted as `OneExtracted` says, from the disk after the previous row, and its failure is skipped. The loop stops at a panic (returned), at a NULL md5sum (that error), or after the last row, with success. |
| Extract.ExtractRows | subcmd/extract.go:39-58 | The rows loop of SubCmdExtract: an `Extraction` over the rows, with success whenever every row has an md5sum and no chunk query or IV can panic. |
| Extract.RowsExtractedGrow | subcmd/extract.go:39-58 | One more row extracted from the last disk keeps every earlier row extracted. |
| Extract.ExtractNext | subcmd/extract.go:44-57 | One turn of the rows loop: the row is extracted as `OneExtracted` says, from the current disk, and recorded. A panic it returns comes from an IV that is not 16 bytes under a valid key, or from the row's chunk query. |
| Extract.ExtractionEnds | subcmd/extract.go:44-60 | Each of the loop's three exits (a panic returned, a NULL md5sum, the last row done), with no earlier row fatal, is an `Extraction`. |
| Extract.MoveIntoPlace | subcmd/extract.go:71-104 | Once extractFromDB succeeded: a digest other than the index's is refused with nothing changed; then a failed stat is returned, an existing file or directory is refused, and an absent target receives the .tmp contents with the stored mtime while .tmp goes away. Directories never change. |
| RubyDec.KeyIsTwoRounds | util/rubydec.go:146-162 | Rounds accumulate until 48 bytes exist, so the key is rounds 1 and 2 and the IV is round 3 of EVP_BytesToKey with MD5, 2048 iterations. |
| RubyDec.GetKIV | util/rubydec.go:146-162 | The derivation loop produces exactly the EVP_BytesToKey key and IV. |
| RubyDec.CbcRoundTrip | util/rubydec.go:81-92 | CBC decryption undoes CBC encryption under the same key and IV, given that AES decryption inverts encryption. |
| RubyDec.Unpad | util/rubydec.go:94-97 | The last block is cut by the value of its final byte, with no check of that value. A value above 16 is a slice panic. |
| RubyDec.RubyRun | util/rubydec.go:64-101 | An unreadable or empty file fails and a header shorter than 16 bytes fails, writing nothing. 16 to 31 bytes decrypt to nothing. Any later failure is a panic. |
| RubyDec.CbcLoop | util/rubydec.go:86-101 | The block loop writes the CBC decryption of every whole block, the last one unpadded. |
| RubyDec.DecryptBlocks | util/rubydec.go:64-101 | The header checks, the key derivation and the block loop produce RubyRun's outcome and bytes. |
| RubyDec.Flush | util/rubydec.go:61-62 | The deferred flush puts the buffered bytes into the created file and keeps the call's outcome. |
| RubyDec.RubyDecrypt | util/rubydec.go:46-144 | An unopenable input or an uncreatable output is the error. Otherwise the output is created (truncated) before the header is read, and ends up holding RubyRun's bytes even after a panic. |
| RubyDec.UnpadPadded | util/rubydec.go:94-97 | Cutting the last block by its final byte undoes PKCS#7 padding (section 6.3 of RFC 5652). |
| RubyDec.EnvelopeBlocks | util/rubydec.go:64-92 | From a `Salted__` envelope, decryption reads back the salt and the ciphertext blocks, and recovers the padded plaintext. |
| RubyDec.RubyRoundTrip | util/rubydec.go:46-144 | Decrypting an OpenSSL `Salted__` AES-256-CBC envelope of a plaintext yields exactly that plaintext. |
| Gup.Gup | subcmd/gup.go:9-17 | Registers every file with base path ".". A failure moves on to the next file, and a panic or hang stops the loop. The result is the last file's outcome (Pass for none), so earlier failures are lost. Turn j is exactly one registration of file j (`RegisteredOnce`), from the rows, IVs and random pool after turn j-1 to those after turn j, and the last tables are the final state. |
| Gup.RegistrationsGrow | subcmd/gup.go:10-15 | One more registration, from the last tables, keeps every earlier turn a registration of its file. |
| LockCmd.LocksAppliedRows | subcmd/lock.go:9-15 | Applying locks changes exactly the lock column of the rows whose id was given. |
| LockCmd.LocksKeepIds | subcmd/lock.go:9-15 | Applying locks keeps every row's id, so the table stays in id order. |
| LockCmd.Lock | subcmd/lock.go:8-16 | UpdateLock for each id in order. The first refused update ends the command with its error, and the updates before it stay. Passes exactly when no update is refused. |

## Left out

- Logging and printed messages (`logger.Printf`, `fmt.Printf`) are not modelled.
- The AWS SDK calls (initiate, upload part, complete, abort, describe job, get job output, initiate job) are parameters. They are outcomes the model receives per call (`UploadEnv`, `DownloadEnv`, `Services`). `glacier.ComputeTreeHash` is the uninterpreted `treeHash`.
- AES, the CTR keystream, MD5, SHA-256 and UTF-8 encoding are uninterpreted functions in `Primitives`. The CBC round trip assumes AES decryption inverts encryption (`AesInverse`).
- `crypto/rand` is the byte pool of `Crypt.Entropy`.
- Goroutines, channels and `sync.WaitGroup` are not modelled: chunk results arrive in an order given as a parameter (`IsOrder`). Download workers are modelled in ascending id order. That is sound because each chunk writes only its own temp file, and temp names differ between chunks.
- The retry loops of `processChunk` and `downloadChunk` are modelled as eventual success of the send. A retry that can never succeed, such as a temp path that is a non-empty directory, is the `Hang` outcome.
- `database/sql` mechanics, SQL text and connections, including the two databases of extract, are not modelled. The tables are in-memory sequences and maps, and a statement fails when its table or column and id are in a fault set.
- `LsComment` and `FindEntryByQueryWithComment` are not modelled (only their row conversion, `ScanWithComment`). They serve only the ls report.
- In extract, the index query, its `entry_order` ordering and the chunk store are parameters. The chunk store is the answer of the chunks query per file id (`ChunksOf`); an id with no recorded answer selects no rows.
- `filepath.Walk` order and its errors are a parameter sequence of visits. `filepath.Rel` is taken as the visit's relative path.
- Directory metadata (mtime, size of a directory) is not modelled.
- `main.go`, `newdb.go`, `ls.go`, `jobstatus.go`, `test.go` and `gdl.go` are not modelled.
- Wall-clock values are parameters.
- `Config.Config.GlacierManager`: the cache field is never filled by the program, and the model keeps it as an always-`None` field. Whether `session.NewSession` fails is a parameter (`Services.session` for sync, `UploadEnv.session` for a registration); the manager itself is a value the model never uses afterwards.
- `Paths.Join`: does not apply `filepath.Clean`. It matches Go only for a clean name and a root without `./` segments, doubled `/` or `..`; roots such as `./docs` or `docs//x` give different strings than Go. A root ending in one `/` is handled; `Disk.TrimSlash` likewise strips only one trailing `/`.
- `Upload.ReadAtLeast`: only regular files are read. A single read returns everything up to the buffer size. bufio and short-read behaviour of other readers is not modelled.
- `RubyDec.RubyDecrypt`: errors of the buffered writes and of the final flush are ignored, as the program ignores them. `aes.NewCipher` on the 32-byte derived key cannot fail, and the model does not model its error branch. The file is read as a whole, so a read that fails partway through the block loop (util/rubydec.go:88-90, "Can't read", returned after the earlier blocks were buffered and then flushed) is not modelled: every read failure becomes the header error. The unchecked os.Stat (util/rubydec.go:83), which would dereference a nil FileInfo if the stat failed after a successful open, is not modelled either.
- `Disk.FileSystem` models the `os` calls the program makes (Stat, Open, Create and write, Remove, Rename, Chtimes, MkdirAll, ReadDir). Permission errors and other failures are the `statFaults` set.
- `Disk.FileSystem`: the namespace of files is flat. WriteFile (os.Create), Create and Rename do not check that the parent directory exists and is a directory, so a create under a missing parent or under a regular file succeeds in the model, where Go fails with ENOENT or ENOTDIR. Only MkdirAll walks the parents.
- `Disk.MkdirAllRun`: `TrimSlash("/")` is `""`, so `MkdirAllRun("/")` fails with `NotExist`, where os.MkdirAll("/") returns nil. This matters only for a document root of "/".
- `Sync.CheckUpl`: in a real run, the contract does not say what keepInGlacier did to each handled file (per-file snapshots as in `Gup.Gup` are not kept). Only the stop rule, the pass clause and the dry-run outcome are stated.
- `Extract.CreateAndDecrypt`: the create of `<name>.tmp` succeeds whenever the path is not a directory or a fault, even under a missing parent or a parent that is a regular file, where os.Create fails (the flat namespace of `Disk.FileSystem`).
- `Extract.ExtractFromDB`: the error of MkdirAll (subcmd/extract.go:109-112) is ignored as in the program, but the following create still succeeds in the model after a failed MkdirAll (say `a/b.txt` with `a` a regular file), so the model can restore a file that the program skips.

## Where the code and its description differ

The model follows the code:

- checkUpl stops the walk at the first file keepInGlacier fails for. It does not go on to the next file.
- A failed upload does not roll back the catalog rows. The new row keeps a NULL archive id, and later lookups by that name fail to scan (`Regist.FailedUploadIsUnscannable`).
- Gup returns the error of the last file only, not the first one or nil.
- The chunk planner's clamp `pe > size` leaves the last end at size when size mod C == C - 1 (`Chunking.PlanLast`). Upload then reads a one-byte last part as empty (`Upload.UploadedBodies`).
- RubyDecrypt:
  - does not check the `Salted__` magic;
  - ignores a trailing partial block;
  - does not validate the padding, and a padding byte above 16 panics after the earlier blocks were written;
  - decrypting a file onto itself reads the freshly truncated file.
- extractFromDB ignores the MkdirAll error and leaves a partial `.tmp` file behind on error. A NULL IV panics in `cipher.NewCTR`.
- SubCmdExtract skips files that fail and passes, but stops on a NULL md5sum or a failed index query.
- Clean returns the walk's error only when no directory was collected.
