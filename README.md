# Deduplication core of RedditDownloader, in Dafny

RedditDownloader saves the media behind Reddit posts. A background deduplicator
hashes each newly downloaded file. It merges files that are visual or exact
duplicates: the largest copy survives, the URLs of the others are moved onto
it, and the others are deleted from disk. File rows that no URL refers to any
more are then pruned from the database.

This project models that core. It lives in
`redditdownloader/processing/post_processing.py` and has these parts:

- `hex_format.dfy` (`HexFormat`): Python's `hex(v)[2:].rjust(2, '0')` for one
  byte. It proves that the result is always two lowercase digits and that it
  can be parsed back.
- `file_hasher.dfy` (`FileHasher`):
  - `hamming_distance`;
  - the two loops of `_dhash`, run on a grey-level grid that has already been
    resized. They are imperative methods proved against specification
    functions. Bit i adds `2**(i % 8)` (line 192), so the first bit of each group is the
    least significant.
  - `get_best_hash`'s choice between the difference hash and the content
    digest.
- `size_order.dfy` (`SizeOrder`): `sorted(..., reverse=True)` by a key. It is a
  stable sort, largest first. The module proves it is a permutation, is
  ordered, keeps ties in input order, and which element comes first.
- `deduplication.dfy` (`Deduplication`):
  - the File and URL tables and the set of paths on disk, as one `Store` value;
  - `_check_hash_match` and the post-filter of `_find_matching_files`;
  - `_choose_best_file`, `_upgrade_file` and `_prune`;
  - one turn and one pass of `_dedupe`, as specification functions;
  - the class `Deduplicator`. Its methods `Dedupe`, `DedupeFile`, `MergeInto`,
    `UpgradeFile` and `Prune` update the tables in place. Each is proved equal
    to the matching specification function.
- `dedupe_properties.dfy` (`DedupeProperties`): what a merge and a whole pass
  guarantee.
  - Which files get a hash.
  - Skipped files keep no hash.
  - Hashes are never recomputed.
  - Where the merged URLs go.
  - After a pass that had work to do, no orphan file row remains.
  - An unfinished file that is still on disk when its turn comes before stop
    ends the pass with the oracle's hash of its path.
- `stale_loser.dfy` (`StaleLoser`): a file that lost a merge keeps its row and
  its hash until `_prune`. With no URL left it still passes
  `_check_hash_match`, so a later turn of the same pass can match it again
  and choose it as the survivor. The module shows this on a three-row store
  (see "## Findings"). It then states the corrected filter, which also asks
  that a match still be referred to by some URL, and proves that a corrected
  pass never deletes the copy of a file it keeps.

A pass takes three inputs that stand for what the program cannot see in its
own code:
- `stopAt`: the first loop index at which the stop event is found set;
- `bestHash`: the hash `get_best_hash` returns for a path;
- `size`: the size of the file at a path.

The File table is a sequence in table order, not a map from id to row. The
queries at lines 52-57 and 87-96 have no ORDER BY, so the source leaves the
order of `unfinished` and of the matches to the database. The model chooses
table order for both. That choice decides how ties in size are broken. During
a pass a row is addressed by its position; no row is removed before `_prune`.

File ids are the table's primary key. Several pass lemmas take distinct ids
as a premise (`DistinctIds`). The corrected pass in `StaleLoser` also takes
distinct paths as a premise (`DistinctPaths`), because two rows naming one
copy would share its deletion.

## Model

| member | source | states |
|---|---|---|
| `FileHasher.HammingDistance` | redditdownloader/processing/post_processing.py:210-214 | strings of different lengths are at the sentinel distance 9999; equal-length strings are at a distance of at most their length |
| `FileHasher.Mismatches` | redditdownloader/processing/post_processing.py:214 | the count of differing positions of two equal-length strings is at most their length |
| `FileHasher.MismatchesSymmetric` | redditdownloader/processing/post_processing.py:214 | the mismatch count does not depend on argument order |
| `FileHasher.HammingDistanceSymmetric` | redditdownloader/processing/post_processing.py:210-214 | the distance is symmetric, including the sentinel case |
| `FileHasher.MismatchesZeroIffEqual` | redditdownloader/processing/post_processing.py:214 | equal-length strings have no mismatch exactly when they are equal |
| `FileHasher.HammingDistanceZeroIffEqual` | redditdownloader/processing/post_processing.py:210-214 | the distance is 0 exactly when the strings are equal |
| `FileHasher.HammingDistanceCountsPositions` | redditdownloader/processing/post_processing.py:214 | for equal lengths the distance is the size of the set of differing positions |
| `FileHasher.DifferencesLength` | redditdownloader/processing/post_processing.py:181-186 | the comparison loops emit exactly hashSize bits per row |
| `FileHasher.DifferenceAt` | redditdownloader/processing/post_processing.py:182-186 | bit row*hashSize+col is true exactly when pixel (col, row) is brighter than pixel (col+1, row) |
| `FileHasher.CompareNeighbours` | redditdownloader/processing/post_processing.py:181-186 | the nested loops build exactly the row-major comparison bits |
| `FileHasher.PartialByteBound` | redditdownloader/processing/post_processing.py:190-192 | the running sum of 2**(index % 8) over w bits stays below 2**w, so a finished group is a byte |
| `FileHasher.PackedBytes` | redditdownloader/processing/post_processing.py:188-195 | one byte per complete group of 8 bits, byte k summing bits 8k..8k+7 least significant first |
| `FileHasher.PackBits` | redditdownloader/processing/post_processing.py:188-196 | the hex string has two lowercase digits per complete group of 8 bits and decodes back to exactly those bits; a trailing partial group is dropped |
| `FileHasher.PackDifferences` | redditdownloader/processing/post_processing.py:188-196 | the packing loop writes the two-digit numeral of every complete group of 8 bits, in order |
| `FileHasher.EmitByte` | redditdownloader/processing/post_processing.py:193-195 | emitting after the eighth bit of a group appends that group's two hex digits |
| `FileHasher.ComputeDHash` | redditdownloader/processing/post_processing.py:180-196 | `_dhash` after the resize: the packed comparison bits of the grid |
| `FileHasher.UnpackByteAt` | redditdownloader/processing/post_processing.py:190-192 | a packed byte unpacks, least significant bit first, to the 8 bits it was summed from |
| `FileHasher.DecodePackedBytes` | redditdownloader/processing/post_processing.py:188-196 | the written hex string has two digits per byte and decodes back to the packed bits |
| `FileHasher.PackBitsRoundTrip` | redditdownloader/processing/post_processing.py:188-196 | packing loses no bit of a complete group; a trailing partial group is dropped |
| `FileHasher.PackedBitAt` | redditdownloader/processing/post_processing.py:188-196 | each bit of a complete group reads back unchanged from the hex string |
| `FileHasher.DHashLength` | redditdownloader/processing/post_processing.py:188-196 | the hash has 2 * (hashSize*hashSize / 8) lowercase hex digits, 16 for the default size 8 |
| `FileHasher.DHashRoundTrip` | redditdownloader/processing/post_processing.py:180-196 | the hash decodes to the row-major comparison bits of all complete groups |
| `FileHasher.DHashByteAt` | redditdownloader/processing/post_processing.py:190-195 | characters 2k and 2k+1 of the hash are byte k, the sum of 2**(i % 8) over the set bits i in [8k, 8k+8) |
| `FileHasher.DHashBitAt` | redditdownloader/processing/post_processing.py:181-196 | bit row*hashSize+col read back from the hash says whether pixel (col, row) is brighter than its right neighbour |
| `FileHasher.DHash` | redditdownloader/processing/post_processing.py:180-196 | the hash of a resized grid has 2 * (hashSize*hashSize / 8) lowercase hex digits and decodes to the row-major comparison bits of its complete groups |
| `FileHasher.Brighten` | redditdownloader/processing/post_processing.py:184-186 | raises every grey level by the same amount, keeping the grid's shape; the shift is unclamped, while `convert('L')` gives levels 0..255 |
| `FileHasher.DifferencesIgnoreBrightness` | redditdownloader/processing/post_processing.py:184-186 | the comparison bits do not change under a uniform brightness shift |
| `FileHasher.DHashIgnoresBrightness` | redditdownloader/processing/post_processing.py:180-196 | the hash does not change under a uniform, unclamped brightness shift of the resized grid |
| `FileHasher.BestHash` | redditdownloader/processing/post_processing.py:138-154 | a still image gets its 16-digit difference hash; an animation or a non-image gets the content digest |
| `FileHasher.StillImageHashDecodes` | redditdownloader/processing/post_processing.py:138-154 | what `get_best_hash` returns for a still image is hex and decodes to the comparison bits: bit row*8+col says whether pixel (col, row) is brighter than its right neighbour |
| `FileHasher.HashFamiliesNeverMatch` | redditdownloader/processing/post_processing.py:212-213 | an image hash and a SHA-1 digest are always at the sentinel distance |
| `HexFormat.PyHex` | redditdownloader/processing/post_processing.py:194 | `hex(v)[2:]` is a non-empty run of lowercase hex digits, one digit exactly when v < 16 |
| `HexFormat.RJust` | redditdownloader/processing/post_processing.py:194 | `rjust` keeps the string as its suffix and pads on the left with the fill up to the width |
| `HexFormat.HexByte` | redditdownloader/processing/post_processing.py:194 | `hex(v)[2:].rjust(2, '0')` is at least two lowercase hex digits, exactly two for a byte |
| `HexFormat.HexByteDigits` | redditdownloader/processing/post_processing.py:194 | a byte always comes out as exactly two digits, high nibble first |
| `HexFormat.ParseByteDigits` | redditdownloader/processing/post_processing.py:194 | parsing the two digits of a byte gives the byte back |
| `HexFormat.ByteDigitsOfParse` | redditdownloader/processing/post_processing.py:194 | every two-digit lowercase numeral is the writing of the byte it parses to |
| `SizeOrder.SortIsPermutation` | redditdownloader/processing/post_processing.py:112-116 | the sorted list is a permutation of its input |
| `SizeOrder.SortIsNonIncreasing` | redditdownloader/processing/post_processing.py:112-116 | `reverse=True` puts larger sizes first |
| `SizeOrder.SortIsStable` | redditdownloader/processing/post_processing.py:112-116 | files of equal size keep their input order |
| `SizeOrder.SortFirstIsLargest` | redditdownloader/processing/post_processing.py:112-117 | the first file is at least as large as every file |
| `SizeOrder.SortFirstIsEarliestLargest` | redditdownloader/processing/post_processing.py:112-117 | a file comes first exactly when it has the largest size and every file before it is smaller |
| `SizeOrder.SortDescending` | redditdownloader/processing/post_processing.py:112-116 | the sort keeps the length of the list; what it orders and how is stated by the four lemmas above |
| `Deduplication.CheckHashMatch` | redditdownloader/processing/post_processing.py:101-109 | a match exactly when the file has a hash, none of its URLs is in an album or unprocessed, and the distance is below 4 |
| `Deduplication.Matches` | redditdownloader/processing/post_processing.py:99 | a file is a match exactly when it is in the table and passes `_check_hash_match` |
| `Deduplication.DifferentLengthNeverMatches` | redditdownloader/processing/post_processing.py:105-108 | a hash of a different length never matches |
| `Deduplication.ImageNeverMatchesDigest` | redditdownloader/processing/post_processing.py:105-108 | an image hash never matches a file hashed by content digest, in either direction |
| `Deduplication.MatchIsSymmetric` | redditdownloader/processing/post_processing.py:107 | swapping the searched hash and the file's hash does not change the verdict |
| `Deduplication.OwnHashMatches` | redditdownloader/processing/post_processing.py:105-109 | a settled file (processed, outside albums) matches its own hash |
| `Deduplication.ChooseBestFile` | redditdownloader/processing/post_processing.py:111-117 | survivor plus others is a permutation of the input; the survivor is largest; the others are largest first; ties keep input order |
| `Deduplication.LastFileSurvivesIffLarger` | redditdownloader/processing/post_processing.py:78 | the file appended after the matches survives exactly when it is strictly larger than every match |
| `Deduplication.Redirect` | redditdownloader/processing/post_processing.py:121-123 | every URL of the old file now refers to the new file; every other URL and the URL count are unchanged |
| `Deduplication.RedirectEmptiesOld` | redditdownloader/processing/post_processing.py:121-123 | after the update no URL refers to the old file |
| `Deduplication.RedirectReferences` | redditdownloader/processing/post_processing.py:121-123 | the new file is referred to exactly when the old or the new one was; no other file gains or loses URLs |
| `Deduplication.Upgrade` | redditdownloader/processing/post_processing.py:119-126 | every URL of the old file now refers to the new file and every other URL is unchanged; the File table is untouched, so the old row stays until `_prune`; the old path leaves disk |
| `Deduplication.PruneFiles` | redditdownloader/processing/post_processing.py:130 | a file survives exactly when some URL refers to it |
| `Deduplication.PruneIdempotent` | redditdownloader/processing/post_processing.py:128-131 | an immediate second prune deletes nothing |
| `Deduplication.UpgradeAll` | redditdownloader/processing/post_processing.py:80-81 | merging leaves the File table alone, changes only which file a URL refers to, and only removes paths from disk |
| `Deduplication.Unfinished` | redditdownloader/processing/post_processing.py:52-59 | every listed file satisfies `NeedsHash`: it has no hash, is downloaded and has no album URL (`InAlbum`) |
| `Deduplication.UnfinishedIsComplete` | redditdownloader/processing/post_processing.py:52-59 | every such file is listed, and the list follows table order |
| `Deduplication.ProcessFile` | redditdownloader/processing/post_processing.py:64-82 | one turn hashes only its own file, and only when `Reached` holds: it is on disk, outside albums (`InAlbum`, line 67) and before stop; merges touch only URL owners and disk |
| `Deduplication.ProcessPrefix` | redditdownloader/processing/post_processing.py:64-82 | the loop changes only hashes, only which file a URL refers to, and only removes paths from disk |
| `Deduplication.ProcessAll` | redditdownloader/processing/post_processing.py:64-82 | the same for the loop over all unfinished files |
| `Deduplication.DedupePass` | redditdownloader/processing/post_processing.py:51-83 | no file needing a hash means no change; otherwise the URLs change only in which file they refer to, disk only shrinks, no row is added, and every remaining file is referred to by a URL |
| `Deduplication.Deduplicator.UpgradeFile` | redditdownloader/processing/post_processing.py:119-126 | the in-place update is `Redirect` of the URLs plus removal of the old path from disk |
| `Deduplication.Deduplicator.Prune` | redditdownloader/processing/post_processing.py:128-131 | the File table becomes `PruneFiles` of itself; URLs and disk unchanged; returns the number of deleted rows, which is the model's addition: `_prune` binds that count to `orphans` and returns nothing |
| `Deduplication.Deduplicator.MergeInto` | redditdownloader/processing/post_processing.py:80-81 | the loop over the others leaves the tables as `UpgradeAll` |
| `Deduplication.Deduplicator.DedupeFile` | redditdownloader/processing/post_processing.py:64-82 | the loop body leaves the tables as `ProcessFile` |
| `Deduplication.Deduplicator.Dedupe` | redditdownloader/processing/post_processing.py:51-83 | the pass leaves the tables as `DedupePass`: unchanged when nothing needs a hash, else the loop followed by the prune |
| `DedupeProperties.UpgradeAllMoves` | redditdownloader/processing/post_processing.py:80-81 | every URL of a merged file now refers to the survivor, all other URLs are unchanged, and the merged files' paths are gone from disk |
| `DedupeProperties.MergeAtTurn` | redditdownloader/processing/post_processing.py:72-81 | when a turn finds matches, the survivor is the largest of them and the new file, and all URLs of the others now refer to it |
| `DedupeProperties.HashedNotAmongMatches` | redditdownloader/processing/post_processing.py:72-75 | the file of the turn is not among its own matches, because it has no hash when they are looked up; so the unused `ignore_id` changes nothing |
| `DedupeProperties.MergedIdsAvoid` | redditdownloader/processing/post_processing.py:76-81 | a merge never picks, as survivor or as loser, a file that still has no hash |
| `DedupeProperties.TurnKeepsUrlOf` | redditdownloader/processing/post_processing.py:76-81 | a turn leaves unchanged whether a URL refers to a file that still has no hash |
| `DedupeProperties.NewFileSurvivesIffLarger` | redditdownloader/processing/post_processing.py:72-78 | the new file survives its merge exactly when it is strictly larger than every match |
| `DedupeProperties.PrefixHashes` | redditdownloader/processing/post_processing.py:64-75 | after n turns, a file whose hash changed was on disk, was reached before stop, and holds the oracle's hash of its path |
| `DedupeProperties.PassHashesOnlyEligible` | redditdownloader/processing/post_processing.py:52-75 | a pass hashes only files with no hash, downloaded, outside albums, on disk and reached before stop |
| `DedupeProperties.EarlierTurnsKeepRow` | redditdownloader/processing/post_processing.py:64-82 | the turns before a file's own turn leave its row alone |
| `DedupeProperties.EarlierTurnsKeepUrl` | redditdownloader/processing/post_processing.py:64-82 | the turns before a file's own turn keep exactly which URLs refer to it |
| `DedupeProperties.LaterTurnsKeepRow` | redditdownloader/processing/post_processing.py:64-82 | the turns after a file's own turn leave its row, and so its hash, alone |
| `DedupeProperties.ReachedFilesGetHashed` | redditdownloader/processing/post_processing.py:64-75 | an unfinished file that is on disk when its turn comes before stop ends the loop with the oracle's hash of its path |
| `DedupeProperties.PrefixDiskShrinks` | redditdownloader/processing/post_processing.py:64-82 | the loop only removes paths from disk: a path on disk after n turns was on disk after every earlier turn |
| `DedupeProperties.FilesLeftOnDiskGetHashed` | redditdownloader/processing/post_processing.py:64-75 | an unfinished file still on disk after the loop, whose turn came before stop, got the oracle's hash of its path |
| `DedupeProperties.SkippedFilesKeepNoHash` | redditdownloader/processing/post_processing.py:64-69 | an unfinished file reached after stop, or missing from disk, still has no hash after the loop |
| `DedupeProperties.SettledFilesUnchanged` | redditdownloader/processing/post_processing.py:52-59 | a file outside the unfinished list leaves the loop unchanged, so hashes are never recomputed |
| `DedupeProperties.PassLeavesNoOrphans` | redditdownloader/processing/post_processing.py:61-83 | no work means no change; otherwise every remaining file is referred to by a URL; remaining rows are original rows with at most a new hash |
| `StaleLoser.TieKeepsOrder` | redditdownloader/processing/post_processing.py:111-117 | with every size equal, the survivor is the first file and the others keep their order |
| `StaleLoser.StaleLoserWins` | redditdownloader/processing/post_processing.py:64-83 | on the three-row store, the pass as written keeps only the first copy's row, with every URL on it, and deletes every copy from disk |
| `StaleLoser.LiveMatches` | redditdownloader/processing/post_processing.py:99-109 | the corrected filter: a file is a match exactly when it is in the table, passes `_check_hash_match`, and some URL still refers to it |
| `StaleLoser.LiveTurn` | redditdownloader/processing/post_processing.py:64-82 | a corrected turn changes only the hash of its own file, which URLs refer to which file, and removes paths from disk |
| `StaleLoser.SurvivorIsLive` | redditdownloader/processing/post_processing.py:76-81 | the survivor of a corrected merge is no file whose copy is gone or is deleted by this merge; a file whose copy the merge deletes is among the others |
| `StaleLoser.LiveMergeKeepsOrphans` | redditdownloader/processing/post_processing.py:78-81 | a corrected merge moves no URL onto a file whose copy the pass deleted |
| `StaleLoser.LivePrefixKeepsOrphans` | redditdownloader/processing/post_processing.py:64-82 | after any number of corrected turns, every file whose copy the pass deleted has no URL left |
| `StaleLoser.LivePassKeepsCopies` | redditdownloader/processing/post_processing.py:51-83 | with distinct ids and paths, a corrected pass never deletes the copy of a file it keeps |
| `StaleLoser.LivePassKeepsThreeCopies` | redditdownloader/processing/post_processing.py:51-83 | on the three-row store, the corrected pass keeps a copy of every file it keeps |

## Left out

- `Deduplicator.run`, the worker process, `stop_event.wait(2)`, the lock and the final pass: these are process machinery. The stop event is the `stopAt` input, and the lock is a no-op.
- Progress reporting, `print` and `traceback`: these only report what happens.
- PIL: `Image.open`, `convert('L')`, the ANTIALIAS resize, `getpixel` and `_is_animated` are foreign calls. The resized grid and the result of opening the file (`ImageProbe`) are inputs.
- `_sha_hash`: a SHA-1 library call over file I/O. It is the `shaDigest` input of `BestHash`, and in a pass it sits behind the `bestHash` oracle. Its `None` result on an I/O error is not modelled: the oracle always returns a string.
- The SQL prefilter of `_find_matching_files`, with `Hash.split_hash` and `Hash.make_hash`: `sql` is not part of this model. The model offers every file of the table to the exact post-filter. That agrees with the source only if the prefilter keeps every file within distance 3 of the searched hash. It does if `split_hash` cuts the hash into four disjoint parts, since at most three differing digits leave one part equal. `split_hash` is not part of this model, so this is an assumption. The stored full hash is the oracle's hash. The `ignore_id` argument is never used by the source, and the model does not exclude the current file. `HashedNotAmongMatches` shows why that does no harm: the file has no hash yet when matches are looked up.
- `SanitizedRelFile`: path sanitisation, `is_file`, `size` and `delete_file` are filesystem calls. They become the `onDisk` set and the `size` function.
- SQLAlchemy sessions, `joinedload` and commits: each per-file commit is one atomic update of the `Store`. Every read sees the latest committed state.
- `ProcessFile`: `size` is one function of the path for the whole pass, so a path deleted earlier in the pass keeps the size it had. What `SanitizedRelFile.size` reports for a missing path, a number or an error, is not part of this model. `ChooseBestFile`, `Deduplicator.DedupeFile` and `LiveTurn` take `size` the same way.
- `DecodeHash`: the program never decodes a hash. This decoder exists only to state the round trip of the packing. It ignores an odd leading digit, which the packer never writes.

## Findings

| source | as written | input that shows it | evidently intended | confidence | as-written member | corrected member |
|---|---|---|---|---|---|---|
| redditdownloader/processing/post_processing.py:99-117 | a file that lost a merge earlier in the pass keeps its row and hash until `_prune` (line 83); with no URL left it passes `_check_hash_match` (line 105), so a later turn matches it again and, on a tie in size, makes it the survivor | files a (new), b (settled, hash "00"), c (new) in that order, one processed URL each, all on disk, every hash "00", every size 0, no stop: turn a merges a into b; turn c picks a as survivor and deletes b and c, so all three URLs end on a, whose copy is gone | a file merged away earlier in the pass is no candidate, so the pass never deletes the copy of a file it keeps | not executed; if `size()` raises for a missing path the pass stops with an error at turn c instead | `StaleLoser.StaleLoserWins` | `StaleLoser.LivePassKeepsCopies` |

The `Deduplicator` class and `DedupePass` keep modelling the code as written;
the corrected turn `LiveTurn`, with the filter `LiveMatches`, and the pass
`LivePass` live beside them in `StaleLoser`.
