# Researcher migration script — verified model

`migrate-researcher-info.php` copies researcher profiles from an ExpressionEngine
database into the user database of a Django application. This project models
the three parts of the script that carry logic, and proves what they do:

- **the command-line option loop** (`CommandLine`, `command_line.dfy`): `-y`
  (run without the confirmation prompt), `-v` (verbose), `-d <dir>` (photo
  directory, default `photos`), `?` / `h` / `-h` / `help` (print help and exit),
  anything else ends the script with "Invalid option". Modelled as a method with the
  script's moving index, proved equal to a recursive reading `ParseTokens`,
  about which the lemmas are stated.
- **the upload-directory map** (`FileDirs`, `file_dirs.dfy`): the rows of
  `exp_upload_prefs` folded into an `id → url` map, a later row overwriting an
  earlier one with the same id.
- **`updateResearcher`** (`Researchers`, `researchers.dfy`): the target
  database is a class `TargetDatabase` holding the `user` table (a map from
  `user_id` to the row) and the append-only `user_education` sequence. One
  source row is matched by email; without a match nothing changes, with a match
  the user's `title` becomes the row's `job_title` and one education row is
  appended for each non-empty `degree_1` .. `degree_4`, in that order.

`php.dfy` (`Php`) holds the `Option` type used for nullable columns and PHP's
`empty()`: NULL, `""` and `"0"` are empty, nothing is trimmed.

The model follows the script as written:

- degrees are skipped when PHP-`empty` (NULL, `""`, `"0"`), with no trimming,
  so `" "` is migrated and `"0"` is not;
- only `title` is updated; the script writes no profile, website or photo
  column and downloads nothing (line 132 is only a placeholder comment);
- the script stops at `die($photopath)` (line 49) before any database work,
  so as written the directory map and `updateResearcher` are never reached;
  they are modelled as the code defines them.

## Model

| member | source | states |
|---|---|---|
| `CommandLine.ParseArguments` | migrate-researcher-info.php:9-38 | the option loop over `argv` (from index 1, `-d` advancing the index twice) ends with exactly the outcome `Parse` gives: settings, help, or the error that ends the script |
| `CommandLine.NoOptions` | migrate-researcher-info.php:9-14 | with no options the settings are verbose = false, photo path "photos", continue = false |
| `CommandLine.FlagsOnly` | migrate-researcher-info.php:16-21 | options made only of `-y` and `-v` succeed; `-y` sets only the continue flag and `-v` only the verbose flag, in any number and order; the photo path is kept |
| `CommandLine.Sequencing` | migrate-researcher-info.php:14-38 | a prefix that parses completely hands its settings on: the rest is parsed from them as if the prefix were absent |
| `CommandLine.StopsAtOnce` | migrate-researcher-info.php:28-37 | help and "Invalid option" end the loop at once: appending any arguments after them changes nothing |
| `CommandLine.PathConsumed` | migrate-researcher-info.php:22-27 | `-d X` with non-empty `X` sets the photo path to `X` and consumes `X`, so `X` is never read as an option |
| `CommandLine.PathMissing` | migrate-researcher-info.php:22-25 | `-d` as the last argument, or followed by `""` or `"0"`, is the invalid-path error whatever follows |
| `CommandLine.TokenOutcome` | migrate-researcher-info.php:28-36 | reached after parsed options, a help token yields help and any token outside the switch's cases yields "Invalid option" naming it, whatever follows |
| `CommandLine.InvalidOptionIsUnknown` | migrate-researcher-info.php:35-36 | an "Invalid option" error names a token that occurs on the command line and that no case accepts |
| `CommandLine.HelpNeedsHelpToken` | migrate-researcher-info.php:28-33 | help is the outcome only when one of `?`, `h`, `-h`, `help` occurs among the options |
| `CommandLine.SettingsOnlyRise` | migrate-researcher-info.php:14-27 | a successful parse never clears a flag, and its photo path is the initial one or a non-empty argument of the command line |
| `FileDirs.BuildFileDirs` | migrate-researcher-info.php:66-69 | the fetch loop fills the map with exactly the fold `Dirs` of the rows in fetch order |
| `FileDirs.DirsKeys` | migrate-researcher-info.php:66-69 | the map's ids are exactly the ids of the fetched rows |
| `FileDirs.DirsLastWins` | migrate-researcher-info.php:67-68 | each id maps to the url of the last fetched row carrying that id |
| `FileDirs.DirsIgnoreServerPath` | migrate-researcher-info.php:64-68 | `server_path` does not influence the map: rows agreeing on ids and urls give the same map |
| `Researchers.FindUser` | migrate-researcher-info.php:123-125 | the lookup finds nothing exactly when no user has the row's (non-NULL) email; otherwise it finds a user with that email, the one with the least id |
| `Researchers.TargetDatabase.UpdateResearcher` | migrate-researcher-info.php:122-150 | the new `user` table is `UpdatedUsers` of the old one and `user_education` is the old sequence followed by `NewEducation`; with no match both tables are unchanged; with a match the user's title is the job title |
| `Researchers.NoMatchNoWrites` | migrate-researcher-info.php:123-131 | with no user carrying the row's email neither the `user` table nor `user_education` changes |
| `Researchers.MatchSetsOnlyTitle` | migrate-researcher-info.php:131-138 | on a match the matched user's title becomes `job_title` (NULL or `""` included); its email and every other column are kept, every other user row is unchanged and no user is added or removed |
| `Researchers.FindUserByEmailsOnly` | migrate-researcher-info.php:123-125 | the lookup depends only on the users' ids and emails |
| `Researchers.FindUserStable` | migrate-researcher-info.php:123-138 | after an update, every email still finds the same user |
| `Researchers.UsersIdempotent` | migrate-researcher-info.php:137-138 | running the update twice on one row gives the same `user` table as running it once |
| `Researchers.EducationRepeats` | migrate-researcher-info.php:142-145 | a second run on the same row appends the same education rows again, so `user_education` grows whenever the first run appended anything: not idempotent |
| `Researchers.EducationForAppend` | migrate-researcher-info.php:142-148 | the rows appended for two runs of degree values are those of the first followed by those of the second: order is kept, nothing is removed or reordered |
| `Researchers.EducationForOne` | migrate-researcher-info.php:143-145 | one degree value appends one row (value, user id) when non-empty and none when NULL, `""` or `"0"` |
| `Researchers.EducationInOrder` | migrate-researcher-info.php:142-148 | the appended rows are one per non-empty `degree_1`, `degree_2`, `degree_3`, `degree_4`, in that order, each with the matched user's id |
| `Researchers.EducationForMembers` | migrate-researcher-info.php:142-145 | a row is appended exactly for every non-empty degree value, carrying that value and the user's id, and for nothing else |
| `Researchers.EducationForLength` | migrate-researcher-info.php:142-148 | the number of rows appended is the number of non-empty degree values |
| `Researchers.ExampleOneMatch` | migrate-researcher-info.php:122-150 | user 5 with email "a@x.com", row with job title "PI" and degrees "PhD", "", "0", NULL: the title becomes "PI" and exactly the row ("PhD", 5) is appended |

## Left out

- The `settings.php` existence check and `require` (lines 3-7): file system and include plumbing.
- The interactive y/n prompt on standard input (lines 40-47): I/O; `noConfirm` (the script's `$continue`) is produced but not acted on.
- `die($photopath)` at line 49: it ends the script before any database work; the model treats the later parts as the code defines them.
- PDO connections and their failure messages (lines 50-60): a foreign library and the network.
- The SQL text of both source queries, including the `channel_id = 6` filter (lines 64-65, 71-87): the query results are inputs (`UploadPref` and `ResearcherRow` sequences).
- The loop that calls `updateResearcher` for each fetched row (lines 87-92): driver code outside the modelled core; each call is `UpdateResearcher` on one row.
- The `fetch` after the UPDATE (line 139): it has no effect on the tables.
- All `echo` output, the verbose messages and the `help()` text (lines 96-120, 134, 140, 146): output has no effect on state. Inside `updateResearcher`, `$verbose` is an undefined local, so those messages never print.
- Photo download, URL resolution and photo, profile or website columns: the code does not implement them.
- Researchers.FindUser: SQL string comparison is modelled as exact equality, not MySQL's collation (case- and trailing-space-insensitive); when several users share an email, the one with the least `user_id` is taken, while the database gives no order guarantee.
- FileDirs.BuildFileDirs: ids are modelled as integers, so PHP's conversion of numeric string keys to integer keys is not modelled.
- Researchers.TargetDatabase.UpdateResearcher: the in-memory store accepts every UPDATE and INSERT; failed or rejected writes (a NULL `job_title` into a NOT NULL `title` column, say) and PDO's error mode are not modelled. The script checks none of its `execute()` results (lines 124, 138, 145): in silent mode a failed write is skipped and the rest still run, in exception mode the script stops at the first failure, possibly also at the `fetch` of line 139.
- CommandLine.ParseArguments: the exit status is not modelled; `die("...")` with a message (lines 24, 36) and `exit()` (line 33) all end the script with status 0, so an error outcome here is not a failure exit code.
