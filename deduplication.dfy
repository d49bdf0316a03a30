/**
  * The duplicate-resolution half of the deduplicator, over an in-memory store
  * standing in for the File and URL tables and the download directory.
  *
  * A pass hashes every downloaded file that has no hash yet and belongs to no
  * album; a freshly hashed file whose hash is within Hamming distance 4 of
  * other, settled files is merged with them: the largest file survives, the
  * URLs of the others are moved onto it and their files deleted from disk.
  * Files that no URL refers to any more are then deleted from the table.
  */
module Deduplication {
  import opened FileHasher
  import opened SizeOrder

  datatype Option<T> = None | Some(value: T)

  type FileId = nat

  /** A path relative to the download directory. */
  type Path = string

  /** A row of the File table; `hash` is the full hash of the attached Hash row, if any. */
  datatype FileRow = FileRow(id: FileId, path: Path, downloaded: bool, hash: Option<string>)

  /** A row of the URL table: the file it was saved to, the album it belongs to (if any), and whether it was processed. */
  datatype UrlRow = UrlRow(fileId: FileId, albumId: Option<int>, processed: bool)

  /** The File table, the URL table and the set of paths that exist on disk. */
  datatype Store = Store(files: seq<FileRow>, urls: seq<UrlRow>, onDisk: set<Path>)

  /** Two hashes closer than this are duplicates. */
  const MatchThreshold: nat := 4

  // ---------------------------------------------------------------------------
  // Matching
  // ---------------------------------------------------------------------------

  /** `u.album_id` read as a condition: present and not zero. */
  predicate IsAlbumUrl(u: UrlRow) {
    u.albumId.Some? && u.albumId.value != 0
  }

  /** `any(u.album_id for u in f.urls)`. */
  predicate InAlbum(urls: seq<UrlRow>, id: FileId) {
    exists k :: 0 <= k < |urls| && urls[k].fileId == id && IsAlbumUrl(urls[k])
  }

  /** `_check_hash_match`: the file has a hash, each of its URLs is processed and outside any album, and the distance is below 4. */
  function CheckHashMatch(file: FileRow, urls: seq<UrlRow>, searchHash: string): (isMatch: bool)
    ensures isMatch <==>
      && file.hash.Some?
      && (forall k :: 0 <= k < |urls| && urls[k].fileId == file.id ==> !IsAlbumUrl(urls[k]) && urls[k].processed)
      && HammingDistance(searchHash, file.hash.value) < MatchThreshold
  {
    if file.hash.None? || exists k :: 0 <= k < |urls| && urls[k].fileId == file.id && (IsAlbumUrl(urls[k]) || !urls[k].processed) then
      false
    else if HammingDistance(searchHash, file.hash.value) >= MatchThreshold then
      false
    else
      true
  }

  /** The post-filter of `_find_matching_files`, over every file of the table, in table order. */
  function Matches(files: seq<FileRow>, urls: seq<UrlRow>, searchHash: string): (matches: seq<FileRow>)
    ensures forall f :: f in matches <==> f in files && CheckHashMatch(f, urls, searchHash)
  {
    if |files| == 0 then []
    else
      var rest := Matches(files[1..], urls, searchHash);
      assert files == [files[0]] + files[1..];
      if CheckHashMatch(files[0], urls, searchHash) then [files[0]] + rest else rest
  }

  /** A hash of a different length is at the sentinel distance, so it never matches. */
  lemma DifferentLengthNeverMatches(file: FileRow, urls: seq<UrlRow>, searchHash: string)
    requires file.hash.Some? && |file.hash.value| != |searchHash|
    ensures !CheckHashMatch(file, urls, searchHash)
  {
  }

  /** A still image's hash never matches a file whose hash is a SHA-1 digest, and a digest never matches an image. */
  lemma ImageNeverMatchesDigest(file: FileRow, urls: seq<UrlRow>, resized: Grid, contentDigest: string)
    requires IsResized(resized, DefaultHashSize)
    requires file.hash.Some? && |file.hash.value| == ShaDigestLength
    ensures !CheckHashMatch(file, urls, BestHash(StillImage(resized), contentDigest))
    ensures !CheckHashMatch(file.(hash := Some(BestHash(StillImage(resized), contentDigest))), urls, file.hash.value)
  {
    HashFamiliesNeverMatch(resized, file.hash.value, contentDigest);
    HammingDistanceSymmetric(BestHash(StillImage(resized), contentDigest), file.hash.value);
  }

  /** Whether two hashes match does not depend on which one is searched for. */
  lemma MatchIsSymmetric(file: FileRow, urls: seq<UrlRow>, a: string, b: string)
    ensures CheckHashMatch(file.(hash := Some(a)), urls, b) == CheckHashMatch(file.(hash := Some(b)), urls, a)
  {
    HammingDistanceSymmetric(a, b);
  }

  /** A settled file always matches its own hash. */
  lemma OwnHashMatches(file: FileRow, urls: seq<UrlRow>)
    requires file.hash.Some?
    requires forall k :: 0 <= k < |urls| && urls[k].fileId == file.id ==> !IsAlbumUrl(urls[k]) && urls[k].processed
    ensures CheckHashMatch(file, urls, file.hash.value)
  {
    HammingDistanceZeroIffEqual(file.hash.value, file.hash.value);
  }

  // ---------------------------------------------------------------------------
  // Choosing the survivor
  // ---------------------------------------------------------------------------

  /** The sort key of `_choose_best_file`: the size on disk of the file's path. */
  function BySize(size: Path -> nat): (key: FileRow -> nat) {
    (f: FileRow) => size(f.path)
  }

  /** `_choose_best_file`: sorted by size, largest first, ties in input order; the first survives, the rest are merged into it. */
  function ChooseBestFile(files: seq<FileRow>, size: Path -> nat): (choice: (FileRow, seq<FileRow>))
    requires |files| > 0
    ensures multiset([choice.0] + choice.1) == multiset(files)
    ensures forall f :: f in files ==> size(f.path) <= size(choice.0.path)
    ensures forall j, k :: 0 <= j < k < |choice.1| ==> size(choice.1[j].path) >= size(choice.1[k].path)
    ensures forall k :: WithKey([choice.0] + choice.1, BySize(size), k) == WithKey(files, BySize(size), k)
  {
    var sorted := SortDescending(files, BySize(size));
    SortFirstIsLargest(files, BySize(size));
    SortIsPermutation(files, BySize(size));
    SortIsNonIncreasing(files, BySize(size));
    forall k {
      SortIsStable(files, BySize(size), k);
    }
    assert [sorted[0]] + sorted[1..] == sorted;
    (sorted[0], sorted[1..])
  }

  /** The file appended last to the matches survives exactly when it is strictly larger than every match. */
  lemma LastFileSurvivesIffLarger(matches: seq<FileRow>, f: FileRow, size: Path -> nat)
    requires f !in matches
    ensures ChooseBestFile(matches + [f], size).0 == f <==> forall m :: m in matches ==> size(m.path) < size(f.path)
  {
    var files := matches + [f];
    var j := |matches|;
    assert files[..j] == matches;
    SortFirstIsEarliestLargest(files, BySize(size), j);
    assert forall x :: x in files ==> x in matches || x == f;
    assert forall i :: 0 <= i < j ==> files[i] in matches;
  }

  // ---------------------------------------------------------------------------
  // Merging and pruning
  // ---------------------------------------------------------------------------

  /** The bulk update of `_upgrade_file`: every URL of `oldId` is moved to `newId`. */
  function Redirect(urls: seq<UrlRow>, oldId: FileId, newId: FileId): (moved: seq<UrlRow>)
    ensures |moved| == |urls|
    ensures forall k :: 0 <= k < |urls| ==>
      moved[k] == (if urls[k].fileId == oldId then urls[k].(fileId := newId) else urls[k])
  {
    if |urls| == 0 then []
    else
      var first := if urls[0].fileId == oldId then urls[0].(fileId := newId) else urls[0];
      [first] + Redirect(urls[1..], oldId, newId)
  }

  /** `f.urls.any()`: some URL refers to the file. */
  predicate Referenced(urls: seq<UrlRow>, id: FileId) {
    exists k :: 0 <= k < |urls| && urls[k].fileId == id
  }

  /** After the update no URL refers to the old file. */
  lemma RedirectEmptiesOld(urls: seq<UrlRow>, oldId: FileId, newId: FileId)
    requires oldId != newId
    ensures !Referenced(Redirect(urls, oldId, newId), oldId)
  {
  }

  /** A file is referred to after the update exactly when it was before, except that the old file's URLs now belong to the new file. */
  lemma RedirectReferences(urls: seq<UrlRow>, oldId: FileId, newId: FileId, id: FileId)
    requires oldId != newId
    ensures Referenced(Redirect(urls, oldId, newId), id) <==>
      if id == newId then Referenced(urls, oldId) || Referenced(urls, newId)
      else id != oldId && Referenced(urls, id)
  {
    var moved := Redirect(urls, oldId, newId);
    if id == newId && Referenced(urls, oldId) {
      var k :| 0 <= k < |urls| && urls[k].fileId == oldId;
      assert moved[k].fileId == newId;
    }
  }

  /** `_prune`: the files some URL still refers to, in table order; the others are deleted. */
  function PruneFiles(files: seq<FileRow>, urls: seq<UrlRow>): (kept: seq<FileRow>)
    ensures forall f :: f in kept <==> f in files && Referenced(urls, f.id)
    ensures |kept| <= |files|
  {
    if |files| == 0 then []
    else
      var rest := PruneFiles(files[1..], urls);
      assert files == [files[0]] + files[1..];
      if Referenced(urls, files[0].id) then [files[0]] + rest else rest
  }

  /** Pruning twice deletes nothing the second time. */
  lemma {:induction false} PruneIdempotent(files: seq<FileRow>, urls: seq<UrlRow>)
    ensures PruneFiles(PruneFiles(files, urls), urls) == PruneFiles(files, urls)
  {
    if |files| > 0 {
      PruneIdempotent(files[1..], urls);
      var rest := PruneFiles(files[1..], urls);
      if Referenced(urls, files[0].id) {
        assert ([files[0]] + rest)[1..] == rest;
      }
    }
  }

  /** `_upgrade_file(new_file, old_file)`: move the old file's URLs to the new file and delete the old file from disk. */
  function Upgrade(s: Store, newFile: FileRow, oldFile: FileRow): (r: Store)
    ensures r.files == s.files && r.onDisk == s.onDisk - {oldFile.path}
    ensures |r.urls| == |s.urls|
    ensures forall k :: 0 <= k < |s.urls| ==>
      r.urls[k] == (if s.urls[k].fileId == oldFile.id then s.urls[k].(fileId := newFile.id) else s.urls[k])
  {
    s.(urls := Redirect(s.urls, oldFile.id, newFile.id), onDisk := s.onDisk - {oldFile.path})
  }

  /** `for o in others: _upgrade_file(best, o)`. */
  function UpgradeAll(s: Store, best: FileRow, others: seq<FileRow>): (r: Store)
    ensures r.files == s.files
    ensures SameUrlRows(s.urls, r.urls)
    ensures r.onDisk <= s.onDisk
  {
    if |others| == 0 then s
    else Upgrade(UpgradeAll(s, best, others[..|others| - 1]), best, others[|others| - 1])
  }

  // ---------------------------------------------------------------------------
  // One pass
  // ---------------------------------------------------------------------------

  /** Two versions of the File table that differ at most in the hashes. */
  predicate SameFileRows(before: seq<FileRow>, after: seq<FileRow>) {
    |after| == |before| && forall i {:trigger after[i]} :: 0 <= i < |before| ==> after[i] == before[i].(hash := after[i].hash)
  }

  /** Two versions of the URL table that differ at most in the files the URLs refer to. */
  predicate SameUrlRows(before: seq<UrlRow>, after: seq<UrlRow>) {
    |after| == |before| && forall k {:trigger after[k]} :: 0 <= k < |before| ==> after[k] == before[k].(fileId := after[k].fileId)
  }

  /** The query at the top of `_dedupe`: no hash yet, downloaded, and no URL in an album. */
  predicate NeedsHash(files: seq<FileRow>, urls: seq<UrlRow>, i: nat)
    requires i < |files|
  {
    files[i].hash.None? && files[i].downloaded && !InAlbum(urls, files[i].id)
  }

  /** The table positions among the first n that need a hash, in table order. */
  function Unfinished(files: seq<FileRow>, urls: seq<UrlRow>, n: nat): (positions: seq<nat>)
    requires n <= |files|
    ensures forall k :: 0 <= k < |positions| ==> positions[k] < n && NeedsHash(files, urls, positions[k])
  {
    if n == 0 then []
    else Unfinished(files, urls, n - 1) + (if NeedsHash(files, urls, n - 1) then [n - 1] else [])
  }

  /** Every position that needs a hash is listed, once, in increasing order. */
  lemma {:induction false} UnfinishedIsComplete(files: seq<FileRow>, urls: seq<UrlRow>, n: nat)
    requires n <= |files|
    ensures forall i :: 0 <= i < n && NeedsHash(files, urls, i) ==> i in Unfinished(files, urls, n)
    ensures forall j, k :: 0 <= j < k < |Unfinished(files, urls, n)| ==> Unfinished(files, urls, n)[j] < Unfinished(files, urls, n)[k]
  {
    if n > 0 {
      UnfinishedIsComplete(files, urls, n - 1);
    }
  }

  /** The file at position i with the hash the oracle gives for its path. */
  function Hashed(s: Store, i: nat, bestHash: Path -> string): (hashed: FileRow)
    requires i < |s.files|
  {
    s.files[i].(hash := Some(bestHash(s.files[i].path)))
  }

  /** Whether turn idx of the loop hashes the file at position i: it is on disk, in no album, and stop is not yet set. */
  predicate Reached(s: Store, i: nat, idx: nat, stopAt: nat)
    requires i < |s.files|
  {
    s.files[i].path in s.onDisk && !InAlbum(s.urls, s.files[i].id) && idx < stopAt
  }

  /** One turn of the loop of `_dedupe`, for the file at table position i, as loop index idx. */
  function ProcessFile(s: Store, i: nat, idx: nat, stopAt: nat, bestHash: Path -> string, size: Path -> nat): (r: Store)
    requires i < |s.files|
    ensures SameFileRows(s.files, r.files) && SameUrlRows(s.urls, r.urls) && r.onDisk <= s.onDisk
    ensures forall j :: 0 <= j < |s.files| && j != i ==> r.files[j] == s.files[j]
    ensures r.files[i] == (if Reached(s, i, idx, stopAt) then Hashed(s, i, bestHash) else s.files[i])
  {
    if !Reached(s, i, idx, stopAt) then s
    else
      var hashed := Hashed(s, i, bestHash);
      var matches := Matches(s.files, s.urls, hashed.hash.value);
      var t := s.(files := s.files[i := hashed]);
      if |matches| == 0 then t
      else
        var choice := ChooseBestFile(matches + [hashed], size);
        UpgradeAll(t, choice.0, choice.1)
  }

  /** The first n turns of the loop over `unfinished`. */
  function ProcessPrefix(s: Store, unfinished: seq<nat>, n: nat, stopAt: nat, bestHash: Path -> string, size: Path -> nat): (r: Store)
    requires n <= |unfinished|
    requires forall k :: 0 <= k < |unfinished| ==> unfinished[k] < |s.files|
    ensures SameFileRows(s.files, r.files) && SameUrlRows(s.urls, r.urls) && r.onDisk <= s.onDisk
  {
    if n == 0 then s
    else ProcessFile(ProcessPrefix(s, unfinished, n - 1, stopAt, bestHash, size), unfinished[n - 1], n - 1, stopAt, bestHash, size)
  }

  /** The tables after the loop of `_dedupe`, before pruning. */
  function ProcessAll(s: Store, stopAt: nat, bestHash: Path -> string, size: Path -> nat): (r: Store)
    ensures SameFileRows(s.files, r.files) && SameUrlRows(s.urls, r.urls) && r.onDisk <= s.onDisk
  {
    var unfinished := Unfinished(s.files, s.urls, |s.files|);
    ProcessPrefix(s, unfinished, |unfinished|, stopAt, bestHash, size)
  }

  /** `_dedupe`: nothing when no file needs a hash; otherwise the loop, then `_prune`. */
  function DedupePass(s: Store, stopAt: nat, bestHash: Path -> string, size: Path -> nat): (r: Store)
    ensures |Unfinished(s.files, s.urls, |s.files|)| == 0 ==> r == s
    ensures SameUrlRows(s.urls, r.urls) && r.onDisk <= s.onDisk && |r.files| <= |s.files|
    ensures |Unfinished(s.files, s.urls, |s.files|)| > 0 ==> forall f :: f in r.files ==> Referenced(r.urls, f.id)
  {
    if |Unfinished(s.files, s.urls, |s.files|)| == 0 then s
    else
      var t := ProcessAll(s, stopAt, bestHash, size);
      t.(files := PruneFiles(t.files, t.urls))
  }

  // ---------------------------------------------------------------------------
  // The deduplicator
  // ---------------------------------------------------------------------------

  /**
    * The tables a deduplicator works on. The content-hash oracle and the file
    * sizes are parameters of a pass; `stopAt` is the first loop index at which
    * the stop event is found set.
    */
  class Deduplicator {
    var files: seq<FileRow>
    var urls: seq<UrlRow>
    var onDisk: set<Path>

    function State(): Store
      reads this
    {
      Store(files, urls, onDisk)
    }

    constructor (files0: seq<FileRow>, urls0: seq<UrlRow>, onDisk0: set<Path>)
      ensures State() == Store(files0, urls0, onDisk0)
    {
      files, urls, onDisk := files0, urls0, onDisk0;
    }

    /** `_upgrade_file`: redirect the old file's URLs to the new file, delete the old file if it is on disk. */
    method UpgradeFile(newFile: FileRow, oldFile: FileRow)
      modifies this
      ensures State() == Upgrade(old(State()), newFile, oldFile)
    {
      urls := Redirect(urls, oldFile.id, newFile.id);
      if oldFile.path in onDisk {
        onDisk := onDisk - {oldFile.path};
      }
    }

    /** `_prune`: delete every file no URL refers to; the count of deleted rows is returned. */
    method Prune() returns (orphans: nat)
      modifies this
      ensures files == PruneFiles(old(files), old(urls))
      ensures urls == old(urls) && onDisk == old(onDisk)
      ensures orphans == |old(files)| - |files|
    {
      var kept := PruneFiles(files, urls);
      orphans := |files| - |kept|;
      files := kept;
    }

    /** The merge step of `_dedupe`: `_upgrade_file(best, o)` for each of the others, in order. */
    method MergeInto(best: FileRow, others: seq<FileRow>)
      modifies this
      ensures State() == UpgradeAll(old(State()), best, others)
    {
      for k := 0 to |others|
        invariant State() == UpgradeAll(old(State()), best, others[..k])
      {
        UpgradeFile(best, others[k]);
        assert others[..k + 1][..k] == others[..k];
      }
      assert others[..|others|] == others;
    }

    /** `_dedupe`: one pass over the files that need a hash. */
    method Dedupe(stopAt: nat, bestHash: Path -> string, size: Path -> nat)
      modifies this
      ensures State() == DedupePass(old(State()), stopAt, bestHash, size)
    {
      var unfinished := Unfinished(files, urls, |files|);
      if |unfinished| == 0 {
        return;
      }
      ghost var start := State();
      for idx := 0 to |unfinished|
        invariant |files| == |start.files|
        invariant State() == ProcessPrefix(start, unfinished, idx, stopAt, bestHash, size)
      {
        DedupeFile(unfinished[idx], idx, stopAt, bestHash, size);
      }
      var orphans := Prune();
    }

    /** The body of the loop of `_dedupe` for the file at table position i, loop index idx. */
    method DedupeFile(i: nat, idx: nat, stopAt: nat, bestHash: Path -> string, size: Path -> nat)
      requires i < |files|
      modifies this
      ensures State() == ProcessFile(old(State()), i, idx, stopAt, bestHash, size)
    {
      var f := files[i];
      var isAlbum := InAlbum(urls, f.id);
      if f.path !in onDisk || isAlbum || idx >= stopAt {
        return;
      }
      var newHash := bestHash(f.path);
      var matches := Matches(files, urls, newHash);
      f := f.(hash := Some(newHash));
      files := files[i := f];
      if |matches| > 0 {
        var choice := ChooseBestFile(matches + [f], size);
        var best, others := choice.0, choice.1;
        MergeInto(best, others);
      }
    }
  }
}
