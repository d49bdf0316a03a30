/**
  * What one turn and one whole pass of the deduplicator guarantee: which files
  * receive a hash, where the URLs of merged files go, and what is left after
  * pruning.
  */
module DedupeProperties {
  import opened Deduplication

  /** The ids of some file rows. */
  function Ids(rows: seq<FileRow>): set<FileId> {
    set o | o in rows :: o.id
  }

  /** The paths of some file rows. */
  function Paths(rows: seq<FileRow>): set<Path> {
    set o | o in rows :: o.path
  }

  /** File ids are a primary key: no two rows share one. */
  predicate DistinctIds(files: seq<FileRow>) {
    forall a, b :: 0 <= a < b < |files| ==> files[a].id != files[b].id
  }

  // ---------------------------------------------------------------------------
  // One merge
  // ---------------------------------------------------------------------------

  /** Merging into `best` moves every URL of the other files onto `best`, leaves all other URLs alone, and deletes the others' files from disk. */
  lemma {:induction false} UpgradeAllMoves(s: Store, best: FileRow, others: seq<FileRow>)
    ensures |UpgradeAll(s, best, others).urls| == |s.urls|
    ensures forall k :: 0 <= k < |s.urls| ==>
      UpgradeAll(s, best, others).urls[k].fileId == (if s.urls[k].fileId in Ids(others) then best.id else s.urls[k].fileId)
    ensures UpgradeAll(s, best, others).onDisk == s.onDisk - Paths(others)
  {
    if |others| > 0 {
      var n := |others| - 1;
      var prefix, last := others[..n], others[n];
      UpgradeAllMoves(s, best, prefix);
      var t := UpgradeAll(s, best, prefix);
      assert others == prefix + [last];
      assert Ids(others) == Ids(prefix) + {last.id};
      assert Paths(others) == Paths(prefix) + {last.path};
      var moved := Redirect(t.urls, last.id, best.id);
      forall k | 0 <= k < |s.urls|
        ensures moved[k].fileId == (if s.urls[k].fileId in Ids(others) then best.id else s.urls[k].fileId)
      {
      }
    }
  }

  /** In a turn that finds matches, the survivor is at least as large as the file and every match, and all URLs of the others now refer to it. */
  lemma MergeAtTurn(s: Store, i: nat, idx: nat, stopAt: nat, bestHash: Path -> string, size: Path -> nat)
    requires i < |s.files| && Reached(s, i, idx, stopAt)
    requires |Matches(s.files, s.urls, bestHash(s.files[i].path))| > 0
    ensures var merged := Matches(s.files, s.urls, bestHash(s.files[i].path)) + [Hashed(s, i, bestHash)];
      var choice := ChooseBestFile(merged, size);
      var r := ProcessFile(s, i, idx, stopAt, bestHash, size);
      && (forall f :: f in merged ==> size(f.path) <= size(choice.0.path))
      && r.files == s.files[i := Hashed(s, i, bestHash)]
      && |r.urls| == |s.urls|
      && (forall k :: 0 <= k < |s.urls| ==>
            r.urls[k].fileId == (if s.urls[k].fileId in Ids(choice.1) then choice.0.id else s.urls[k].fileId))
      && r.onDisk == s.onDisk - Paths(choice.1)
  {
    var hashed := Hashed(s, i, bestHash);
    var merged := Matches(s.files, s.urls, bestHash(s.files[i].path)) + [hashed];
    var choice := ChooseBestFile(merged, size);
    UpgradeAllMoves(s.(files := s.files[i := hashed]), choice.0, choice.1);
  }

  /** The freshly hashed file is not among the matches: it had no hash when they were looked up. */
  lemma HashedNotAmongMatches(s: Store, i: nat, bestHash: Path -> string)
    requires i < |s.files| && s.files[i].hash.None? && DistinctIds(s.files)
    ensures Hashed(s, i, bestHash) !in Matches(s.files, s.urls, bestHash(s.files[i].path))
  {
  }

  /** The file being hashed survives its merge exactly when it is strictly larger than every match. */
  lemma NewFileSurvivesIffLarger(s: Store, i: nat, bestHash: Path -> string, size: Path -> nat)
    requires i < |s.files| && s.files[i].hash.None? && DistinctIds(s.files)
    ensures var matches := Matches(s.files, s.urls, bestHash(s.files[i].path));
      ChooseBestFile(matches + [Hashed(s, i, bestHash)], size).0 == Hashed(s, i, bestHash) <==>
        forall m :: m in matches ==> size(m.path) < size(s.files[i].path)
  {
    HashedNotAmongMatches(s, i, bestHash);
    LastFileSurvivesIffLarger(Matches(s.files, s.urls, bestHash(s.files[i].path)), Hashed(s, i, bestHash), size);
  }

  // ---------------------------------------------------------------------------
  // One pass
  // ---------------------------------------------------------------------------

  /** One turn changes at most its own file's row, and that one only by giving it the oracle's hash. */
  lemma TurnHashes(t: Store, i: nat, idx: nat, stopAt: nat, bestHash: Path -> string, size: Path -> nat, j: nat)
    requires i < |t.files| && j < |t.files|
    ensures var r := ProcessFile(t, i, idx, stopAt, bestHash, size);
      j < |r.files| &&
      r.files[j] == (if i == j && Reached(t, j, idx, stopAt) then Hashed(t, j, bestHash) else t.files[j])
  {
  }

  /** After n turns, a file whose hash changed was on disk at the start, got the oracle's hash of its path, and was reached before stop. */
  lemma {:induction false} PrefixHashes(s: Store, unfinished: seq<nat>, n: nat, stopAt: nat, bestHash: Path -> string, size: Path -> nat, j: nat)
    requires n <= |unfinished|
    requires forall k :: 0 <= k < |unfinished| ==> unfinished[k] < |s.files|
    requires j < |s.files|
    ensures var t := ProcessPrefix(s, unfinished, n, stopAt, bestHash, size);
      t.files[j].hash != s.files[j].hash ==>
        && s.files[j].path in s.onDisk
        && t.files[j].hash == Some(bestHash(s.files[j].path))
        && exists idx :: 0 <= idx < n && idx < stopAt && unfinished[idx] == j
  {
    if n > 0 {
      var t := ProcessPrefix(s, unfinished, n - 1, stopAt, bestHash, size);
      PrefixHashes(s, unfinished, n - 1, stopAt, bestHash, size, j);
      TurnHashes(t, unfinished[n - 1], n - 1, stopAt, bestHash, size, j);
      assert t.files[j].path == s.files[j].path;
    }
  }

  /** A pass hashes only files that needed a hash, were on disk, and were reached before stop; their hash is the oracle's. */
  lemma PassHashesOnlyEligible(s: Store, stopAt: nat, bestHash: Path -> string, size: Path -> nat, j: nat)
    requires j < |s.files|
    ensures var t := ProcessAll(s, stopAt, bestHash, size);
      t.files[j].hash != s.files[j].hash ==>
        && NeedsHash(s.files, s.urls, j)
        && s.files[j].path in s.onDisk
        && t.files[j].hash == Some(bestHash(s.files[j].path))
        && exists idx :: 0 <= idx < stopAt && idx < |Unfinished(s.files, s.urls, |s.files|)| && Unfinished(s.files, s.urls, |s.files|)[idx] == j
  {
    var unfinished := Unfinished(s.files, s.urls, |s.files|);
    PrefixHashes(s, unfinished, |unfinished|, stopAt, bestHash, size, j);
  }

  /** No file of a merge shares its id with a file that has no hash and is not the one being hashed. */
  lemma MergedIdsAvoid(t: Store, i: nat, bestHash: Path -> string, size: Path -> nat, j: nat)
    requires i < |t.files| && j < |t.files| && i != j
    requires t.files[j].hash.None? && DistinctIds(t.files)
    requires |Matches(t.files, t.urls, bestHash(t.files[i].path))| > 0
    ensures var choice := ChooseBestFile(Matches(t.files, t.urls, bestHash(t.files[i].path)) + [Hashed(t, i, bestHash)], size);
      choice.0.id != t.files[j].id && t.files[j].id !in Ids(choice.1)
  {
    var matches := Matches(t.files, t.urls, bestHash(t.files[i].path));
    var merged := matches + [Hashed(t, i, bestHash)];
    var choice := ChooseBestFile(merged, size);
    forall x | x in merged
      ensures x.id != t.files[j].id
    {
      if x in matches {
        var a :| 0 <= a < |t.files| && t.files[a] == x;
        assert a != j;
      }
    }
    assert choice.0 in multiset([choice.0] + choice.1);
    forall x | x in choice.1
      ensures x.id != t.files[j].id
    {
      assert x in multiset([choice.0] + choice.1);
    }
  }

  /** Rows that differ at most in their hashes keep distinct ids distinct. */
  lemma SameRowsKeepIds(before: seq<FileRow>, after: seq<FileRow>)
    requires SameFileRows(before, after) && DistinctIds(before)
    ensures DistinctIds(after)
  {
    forall a, b | 0 <= a < b < |after|
      ensures after[a].id != after[b].id
    {
      assert after[a].id == before[a].id && after[b].id == before[b].id;
    }
  }

  /** A turn for another file never moves URL k onto or off a file that has no hash yet. */
  lemma TurnKeepsUrlOf(t: Store, i: nat, idx: nat, stopAt: nat, bestHash: Path -> string, size: Path -> nat, j: nat, k: nat)
    requires i < |t.files| && j < |t.files| && i != j && k < |t.urls|
    requires t.files[j].hash.None? && DistinctIds(t.files)
    ensures var r := ProcessFile(t, i, idx, stopAt, bestHash, size);
      k < |r.urls| && (r.urls[k].fileId == t.files[j].id <==> t.urls[k].fileId == t.files[j].id)
  {
    if Reached(t, i, idx, stopAt) && |Matches(t.files, t.urls, bestHash(t.files[i].path))| > 0 {
      MergeAtTurn(t, i, idx, stopAt, bestHash, size);
      MergedIdsAvoid(t, i, bestHash, size, j);
    }
  }

  /** The turns before a file's own turn leave its row alone. */
  lemma {:induction false} EarlierTurnsKeepRow(s: Store, unfinished: seq<nat>, n: nat, stopAt: nat, bestHash: Path -> string, size: Path -> nat, idx: nat)
    requires n <= idx < |unfinished|
    requires forall k :: 0 <= k < |unfinished| ==> unfinished[k] < |s.files|
    requires forall a, b :: 0 <= a < b < |unfinished| ==> unfinished[a] < unfinished[b]
    ensures ProcessPrefix(s, unfinished, n, stopAt, bestHash, size).files[unfinished[idx]] == s.files[unfinished[idx]]
  {
    if n > 0 {
      EarlierTurnsKeepRow(s, unfinished, n - 1, stopAt, bestHash, size, idx);
      assert unfinished[n - 1] < unfinished[idx];
      TurnHashes(ProcessPrefix(s, unfinished, n - 1, stopAt, bestHash, size), unfinished[n - 1], n - 1, stopAt, bestHash, size, unfinished[idx]);
    }
  }

  /** The turns before a file's own turn keep whether URL k refers to it. */
  lemma {:induction false} EarlierTurnsKeepUrl(s: Store, unfinished: seq<nat>, n: nat, stopAt: nat, bestHash: Path -> string, size: Path -> nat, idx: nat, k: nat)
    requires n <= idx < |unfinished| && k < |s.urls|
    requires forall k :: 0 <= k < |unfinished| ==> unfinished[k] < |s.files|
    requires forall a, b :: 0 <= a < b < |unfinished| ==> unfinished[a] < unfinished[b]
    requires DistinctIds(s.files) && s.files[unfinished[idx]].hash.None?
    ensures ProcessPrefix(s, unfinished, n, stopAt, bestHash, size).urls[k].fileId == s.files[unfinished[idx]].id <==>
      s.urls[k].fileId == s.files[unfinished[idx]].id
  {
    if n > 0 {
      var j := unfinished[idx];
      var t := ProcessPrefix(s, unfinished, n - 1, stopAt, bestHash, size);
      EarlierTurnsKeepUrl(s, unfinished, n - 1, stopAt, bestHash, size, idx, k);
      EarlierTurnsKeepRow(s, unfinished, n - 1, stopAt, bestHash, size, idx);
      SameRowsKeepIds(s.files, t.files);
      assert unfinished[n - 1] < j;
      TurnKeepsUrlOf(t, unfinished[n - 1], n - 1, stopAt, bestHash, size, j, k);
    }
  }

  /** The turns after a file's own turn leave its row alone. */
  lemma {:induction false} LaterTurnsKeepRow(s: Store, unfinished: seq<nat>, m: nat, stopAt: nat, bestHash: Path -> string, size: Path -> nat, idx: nat)
    requires idx < m <= |unfinished|
    requires forall k :: 0 <= k < |unfinished| ==> unfinished[k] < |s.files|
    requires forall a, b :: 0 <= a < b < |unfinished| ==> unfinished[a] < unfinished[b]
    ensures ProcessPrefix(s, unfinished, m, stopAt, bestHash, size).files[unfinished[idx]] ==
      ProcessPrefix(s, unfinished, idx + 1, stopAt, bestHash, size).files[unfinished[idx]]
  {
    if m > idx + 1 {
      LaterTurnsKeepRow(s, unfinished, m - 1, stopAt, bestHash, size, idx);
      TurnHashes(ProcessPrefix(s, unfinished, m - 1, stopAt, bestHash, size), unfinished[m - 1], m - 1, stopAt, bestHash, size, unfinished[idx]);
    }
  }

  /** An unfinished file that is still on disk when its turn comes, and whose turn comes before stop, ends the loop with the oracle's hash of its path. */
  lemma ReachedFilesGetHashed(s: Store, stopAt: nat, bestHash: Path -> string, size: Path -> nat, idx: nat)
    requires DistinctIds(s.files)
    requires idx < |Unfinished(s.files, s.urls, |s.files|)| && idx < stopAt
    requires var unfinished := Unfinished(s.files, s.urls, |s.files|);
      s.files[unfinished[idx]].path in ProcessPrefix(s, unfinished, idx, stopAt, bestHash, size).onDisk
    ensures var j := Unfinished(s.files, s.urls, |s.files|)[idx];
      ProcessAll(s, stopAt, bestHash, size).files[j].hash == Some(bestHash(s.files[j].path))
  {
    var unfinished := Unfinished(s.files, s.urls, |s.files|);
    var j := unfinished[idx];
    var id := s.files[j].id;
    UnfinishedIsComplete(s.files, s.urls, |s.files|);
    EarlierTurnsKeepRow(s, unfinished, idx, stopAt, bestHash, size, idx);
    var t := ProcessPrefix(s, unfinished, idx, stopAt, bestHash, size);
    forall k | 0 <= k < |t.urls| && t.urls[k].fileId == id
      ensures !IsAlbumUrl(t.urls[k])
    {
      EarlierTurnsKeepUrl(s, unfinished, idx, stopAt, bestHash, size, idx, k);
      assert t.urls[k].albumId == s.urls[k].albumId;
    }
    assert Reached(t, j, idx, stopAt);
    TurnHashes(t, j, idx, stopAt, bestHash, size, j);
    LaterTurnsKeepRow(s, unfinished, |unfinished|, stopAt, bestHash, size, idx);
  }

  /** Disk only loses files as the loop goes on: a path on disk after n turns was on disk after m <= n turns. */
  lemma {:induction false} PrefixDiskShrinks(s: Store, unfinished: seq<nat>, m: nat, n: nat, stopAt: nat, bestHash: Path -> string, size: Path -> nat, path: Path)
    requires m <= n <= |unfinished|
    requires forall k :: 0 <= k < |unfinished| ==> unfinished[k] < |s.files|
    requires path in ProcessPrefix(s, unfinished, n, stopAt, bestHash, size).onDisk
    ensures path in ProcessPrefix(s, unfinished, m, stopAt, bestHash, size).onDisk
  {
    if m < n {
      PrefixDiskShrinks(s, unfinished, m, n - 1, stopAt, bestHash, size, path);
    }
  }

  /** An unfinished file whose copy is still on disk after the loop, and whose turn came before stop, got the oracle's hash. */
  lemma FilesLeftOnDiskGetHashed(s: Store, stopAt: nat, bestHash: Path -> string, size: Path -> nat, idx: nat)
    requires DistinctIds(s.files)
    requires idx < |Unfinished(s.files, s.urls, |s.files|)| && idx < stopAt
    requires s.files[Unfinished(s.files, s.urls, |s.files|)[idx]].path in ProcessAll(s, stopAt, bestHash, size).onDisk
    ensures var j := Unfinished(s.files, s.urls, |s.files|)[idx];
      ProcessAll(s, stopAt, bestHash, size).files[j].hash == Some(bestHash(s.files[j].path))
  {
    var unfinished := Unfinished(s.files, s.urls, |s.files|);
    PrefixDiskShrinks(s, unfinished, idx, |unfinished|, stopAt, bestHash, size, s.files[unfinished[idx]].path);
    ReachedFilesGetHashed(s, stopAt, bestHash, size, idx);
  }

  /** A file reached only after stop was set, or missing from disk, keeps no hash. */
  lemma SkippedFilesKeepNoHash(s: Store, stopAt: nat, bestHash: Path -> string, size: Path -> nat, idx: nat)
    requires idx < |Unfinished(s.files, s.urls, |s.files|)|
    requires var j := Unfinished(s.files, s.urls, |s.files|)[idx];
      idx >= stopAt || s.files[j].path !in s.onDisk
    ensures ProcessAll(s, stopAt, bestHash, size).files[Unfinished(s.files, s.urls, |s.files|)[idx]].hash.None?
  {
    var unfinished := Unfinished(s.files, s.urls, |s.files|);
    var j := unfinished[idx];
    PassHashesOnlyEligible(s, stopAt, bestHash, size, j);
    UnfinishedIsComplete(s.files, s.urls, |s.files|);
  }

  /** A file that did not need a hash (it had one, was not downloaded, or is in an album) leaves the loop unchanged: hashes are never recomputed. */
  lemma SettledFilesUnchanged(s: Store, stopAt: nat, bestHash: Path -> string, size: Path -> nat, j: nat)
    requires j < |s.files| && !NeedsHash(s.files, s.urls, j)
    ensures ProcessAll(s, stopAt, bestHash, size).files[j] == s.files[j]
  {
    PassHashesOnlyEligible(s, stopAt, bestHash, size, j);
  }

  /** A pass with nothing to hash changes nothing; otherwise every file left is referred to by some URL, and every file left is an original row with at most its hash changed. */
  lemma PassLeavesNoOrphans(s: Store, stopAt: nat, bestHash: Path -> string, size: Path -> nat)
    ensures |Unfinished(s.files, s.urls, |s.files|)| == 0 ==> DedupePass(s, stopAt, bestHash, size) == s
    ensures |Unfinished(s.files, s.urls, |s.files|)| > 0 ==>
      var r := DedupePass(s, stopAt, bestHash, size);
      forall f :: f in r.files ==> Referenced(r.urls, f.id)
    ensures forall f :: f in DedupePass(s, stopAt, bestHash, size).files ==>
      exists j :: 0 <= j < |s.files| && f == s.files[j].(hash := f.hash)
    ensures SameUrlRows(s.urls, DedupePass(s, stopAt, bestHash, size).urls)
  {
    var r := DedupePass(s, stopAt, bestHash, size);
    var t := ProcessAll(s, stopAt, bestHash, size);
    forall f | f in r.files
      ensures exists j :: 0 <= j < |s.files| && f == s.files[j].(hash := f.hash)
    {
      var j :| 0 <= j < |t.files| && t.files[j] == f;
    }
  }
}
