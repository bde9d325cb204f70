# wallabag clean-duplicates pass, modelled in Dafny

wallabag's `wallabag:clean-duplicates` console command removes duplicate
articles from a user's list. For each user it fetches the `(id, url)` rows of
that user's entries, walks them in the order they arrive, and keeps a list of
URLs already seen. An entry whose comparison key (`similarUrl` of its URL) is
already in the list is removed from the database and counted; any other entry
has its raw URL appended to the list. A counter on the command sums the
per-user counts over all users cleaned in one run.

The model is functional. A user's rows are a `seq<Entry>`, and the pass is a
pure function returning a `Scan`: the ids deleted (in order), the final
seen-URL list and the per-user count. Removing an entry through the entity
manager, with its immediate flush, becomes appending its id to `deleted`.
`Entries.Remaining` gives what the store holds afterwards.

The comparison key is modelled as the code computes it. `similarUrl` checks
whether the URL ends in `/` or `#`, and in that case it returns
`substr($url, 0, strlen($url))`. That is the whole string, so the key is
always the URL itself (`CleanDuplicatesCommand.SimilarUrl` proves this).
Duplicates are therefore exact, case-sensitive string matches, and
`http://a.com` and `http://a.com/` are different URLs. The comment next to
the check says instead that one trailing `/` or `#` is stripped. Where the
comment and the code disagree, this model follows the code. Two consequences:
- `[(1, http://a.com), (2, http://a.com/), (3, http://b.com)]` deletes
  nothing. With stripping, entry 2 would be deleted.
- `[(1, http://a.com/), (2, http://a.com)]` deletes nothing either way. The
  seen list stores raw URLs, so even with stripping the key `http://a.com`
  would not match the stored `http://a.com/`.

The stripping the comment describes is kept as a separate, unused variant in
module `IntendedNormalizer`, together with the exact inputs on which it
differs from the code.

Files:
- `php.dfy`: PHP 8 `substr` with and without a length, as used by `similarUrl`.
  The model writes the `substr($url, -1)` test as a test on the last
  character. `EndsWithSeparatorIsSubstrTest` proves the two tests agree.
- `entries.dfy`: the `(id, url)` row and the reference definitions. These are
  `IsDuplicateAt`, `Survivors`, `Duplicates` and `Remaining`. They do not
  mention the seen list.
- `clean_duplicates_command.dfy`: `SimilarUrl`, the pass (a recursive function
  plus the same pass as a loop), and the cumulative counter over users.
- `scan_properties.dfy`, `cumulative_properties.dfy`: what the pass and the
  counter compute, stated against the reference definitions.
- `intended_normalizer.dfy`: the variant described by the comment.
- `examples_as_written.dfy`: concrete runs.

## Model

| member | source | states |
|---|---|---|
| `Php.Substr` | src/Wallabag/CoreBundle/Command/CleanDuplicatesCommand.php:109 | `substr($url, -1)` is a suffix of the string. With a negative offset its length is the smaller of the offset's magnitude and the string length, so it is the last character, or empty for an empty URL. |
| `Php.SubstrLen` | src/Wallabag/CoreBundle/Command/CleanDuplicatesCommand.php:110 | `substr(s, offset, length)` with an in-range offset is the piece of `s` starting at that offset. Its length is the smaller of `length` and what remains. A negative `length` leaves that many characters off the end. |
| `CleanDuplicatesCommand.SimilarUrl` | src/Wallabag/CoreBundle/Command/CleanDuplicatesCommand.php:107-114 | The comparison key equals the URL for every string, including strings ending in `/` or `#`. |
| `CleanDuplicatesCommand.EndsWithSeparatorIsSubstrTest` | src/Wallabag/CoreBundle/Command/CleanDuplicatesCommand.php:109 | The test `in_array(substr($url, -1), ['/', '#'], true)` holds exactly when the URL is non-empty and its last character is `/` or `#`. |
| `CleanDuplicatesCommand.CleanDuplicates` | src/Wallabag/CoreBundle/Command/CleanDuplicatesCommand.php:82-105 | The count equals the number of deletions. Every row is either deleted or puts its URL into the seen list. No rows means count 0 and no deletions. |
| `CleanDuplicatesCommand.SeenListInvariant` | src/Wallabag/CoreBundle/Command/CleanDuplicatesCommand.php:87-99 | After any number of rows, the seen list repeats no URL, so a deleted entry's URL never goes in a second time. It holds exactly the URLs of the rows scanned so far. |
| `CleanDuplicatesCommand.CleanDuplicatesLoop` | src/Wallabag/CoreBundle/Command/CleanDuplicatesCommand.php:86-100 | The `foreach` loop with its `in_array` test computes the same deletions, seen list and count as the functional pass. |
| `CleanDuplicatesCommand.Accumulate` | src/Wallabag/CoreBundle/Command/CleanDuplicatesCommand.php:102 | Adding each user's count to the counter never takes it below its starting value. With no users, the counter keeps that value. |
| `CleanDuplicatesCommand.CleanAllUsers` | src/Wallabag/CoreBundle/Command/CleanDuplicatesCommand.php:72-76 | The all-users loop, starting the counter at 0 (line 22), ends with the cumulative count of the users in order. |
| `Entries.RemainingContents` | src/Wallabag/CoreBundle/Command/CleanDuplicatesCommand.php:95-96 | After deleting by id, the store holds exactly the entries whose id was not deleted. |
| `ScanProperties.ScanMatchesReference` | src/Wallabag/CoreBundle/Command/CleanDuplicatesCommand.php:88-99 | The pass deletes exactly the ids of the entries that repeat an earlier URL, in input order. The seen list is the URLs of the other entries, in input order. The count is the number of repeats. |
| `ScanProperties.DeletionStep` | src/Wallabag/CoreBundle/Command/CleanDuplicatesCommand.php:89-99 | Row `i` emits its id, bumps the count and leaves the seen list unchanged if and only if an earlier row has the same URL. Otherwise nothing is emitted and the row's raw URL is appended. |
| `ScanProperties.DeletedIffSeenEarlier` | src/Wallabag/CoreBundle/Command/CleanDuplicatesCommand.php:88-99 | For a user's rows split as `before`, an entry `e`, and `after`, with distinct ids: `e` is deleted if and only if some entry in `before` has exactly the same URL. |
| `ScanProperties.FirstOccurrenceKept` | src/Wallabag/CoreBundle/Command/CleanDuplicatesCommand.php:97-98 | When no entry before `e` has its URL, `e` is never deleted, and its raw URL is in the seen list. |
| `ScanProperties.SeenListIsFirstOccurrences` | src/Wallabag/CoreBundle/Command/CleanDuplicatesCommand.php:87-99 | The seen list is the URLs of the surviving entries, in the order those entries first appear. The survivors are input entries with pairwise-distinct URLs, and they carry the same set of URLs as the input. |
| `ScanProperties.CountIsEntriesMinusDistinctUrls` | src/Wallabag/CoreBundle/Command/CleanDuplicatesCommand.php:86-96 | The count equals the number of deletions issued. It is at most the number of entries, and it equals the number of entries minus the number of distinct URLs. |
| `ScanProperties.NothingDeletedIffDistinct` | src/Wallabag/CoreBundle/Command/CleanDuplicatesCommand.php:88-99 | The count is 0 if and only if no two entries share a URL. In that case the seen list is the whole URL column. |
| `ScanProperties.RerunDeletesNothing` | src/Wallabag/CoreBundle/Command/CleanDuplicatesCommand.php:88-99 | Rescanning the entries left after a pass deletes nothing, counts 0 and rebuilds the same seen list (idempotence). |
| `ScanProperties.RemainingIsSurvivors` | src/Wallabag/CoreBundle/Command/CleanDuplicatesCommand.php:95-96 | Removing exactly the ids at duplicate positions leaves exactly the surviving entries, in order. |
| `ScanProperties.InterruptedPassIsPrefix` | src/Wallabag/CoreBundle/Command/CleanDuplicatesCommand.php:95-96 | A pass stopped after any number of rows has issued a prefix of the full pass's deletions. Its seen list is a prefix of the full list, and its count is no larger. |
| `CumulativeProperties.AccumulateIsSum` | src/Wallabag/CoreBundle/Command/CleanDuplicatesCommand.php:102 | The counter ends at its starting value plus the sum of the per-user counts. |
| `CumulativeProperties.AccumulateMonotone` | src/Wallabag/CoreBundle/Command/CleanDuplicatesCommand.php:102 | The counter never decreases. After any prefix of the users it lies between its starting value and its final value. |
| `CumulativeProperties.CleanAllUsersTotal` | src/Wallabag/CoreBundle/Command/CleanDuplicatesCommand.php:72-76 | The total reported after an all-users run, with the counter starting at 0, is the sum of the per-user counts. |
| `IntendedNormalizer.StripTrailingSeparator` | src/Wallabag/CoreBundle/Command/CleanDuplicatesCommand.php:109 | This is the variant the comment describes, not used by the pass. Its result is a prefix of the URL, exactly one character shorter when the URL ends in `/` or `#`, and otherwise equal to it. |
| `IntendedNormalizer.DiffersFromSimilarUrl` | src/Wallabag/CoreBundle/Command/CleanDuplicatesCommand.php:109-110 | The code's key and the commented intent differ exactly on URLs ending in `/` or `#`. |
| `IntendedNormalizer.StripsOnlyOne` | src/Wallabag/CoreBundle/Command/CleanDuplicatesCommand.php:109 | The variant strips one character only (`http://a.com//` becomes `http://a.com/`). The code leaves `http://a.com/` as it is. |
| `ExamplesAsWritten.TrailingSlashIsNotDuplicate` | src/Wallabag/CoreBundle/Command/CleanDuplicatesCommand.php:92 | `http://a.com` followed by `http://a.com/` is not a duplicate: nothing is deleted and all three URLs are kept. |
| `ExamplesAsWritten.TrailingSlashFirstIsNotDuplicate` | src/Wallabag/CoreBundle/Command/CleanDuplicatesCommand.php:92 | The reverse order also deletes nothing. |
| `ExamplesAsWritten.ExactRepeatIsDeleted` | src/Wallabag/CoreBundle/Command/CleanDuplicatesCommand.php:92-98 | An exact repeat (id 2) is the only deletion, the count is 1, and the seen list holds each URL once. |
| `ExamplesAsWritten.NoEntries` | src/Wallabag/CoreBundle/Command/CleanDuplicatesCommand.php:86-88 | A user with no entries gets count 0, no deletions and an empty seen list. |
| `ExamplesAsWritten.TwoUsersAddUp` | src/Wallabag/CoreBundle/Command/CleanDuplicatesCommand.php:102 | Over two users, the counter is the first user's count plus the second's. |
| `ExamplesAsWritten.TwoAndThreeMakeFive` | src/Wallabag/CoreBundle/Command/CleanDuplicatesCommand.php:102 | Two users whose passes count 2 and 3 duplicates bring the cumulative counter to 5. |

## Left out

- `configure` and `execute` (lines 37-80): argument parsing, `SymfonyStyle` output and exit codes are console plumbing. Only the all-users loop and its counter (lines 72-76) are modelled, as `CleanAllUsers`.
- `getUser` and the `NoResultException` branch (lines 56-64, 123-126): the user lookup is a call into a repository that is not part of this model.
- `findAllEntriesIdAndUrlByUserId` and `find` (lines 84, 95): the repository queries are not visible. The rows are a parameter, and the row order is whatever the caller supplies.
- `EntityManager::remove` and `flush` (lines 95-96): transactions, flush timing, storage failures and concurrent writers are not modelled. A deletion is only an id appended to the output. Interruption is covered only by the prefix property `InterruptedPassIsPrefix`.
- The per-user progress text (line 104) is console output.
- `ScanProperties.DeletedIffSeenEarlier`: assumes that entry ids are pairwise distinct, as primary keys are. `DeletionStep` and `ScanMatchesReference` state the per-row behaviour without that assumption.
- `ScanProperties.FirstOccurrenceKept`: assumes pairwise-distinct ids, for the same reason.
- `ScanProperties.RerunDeletesNothing`: assumes pairwise-distinct ids, so that deleting by id removes exactly the duplicate rows.
