/**
  * A file that loses a merge keeps its row, and its hash, until `_prune` runs
  * after the loop. With no URL left it passes `_check_hash_match` vacuously, so
  * a later turn of the same pass can match it again and, on a tie in size,
  * choose it as the survivor: the URLs then move onto a file whose copy the
  * pass has already deleted, and the copies of the others are deleted too.
  *
  * This module shows that on a concrete store and states the corrected turn,
  * in which a match must still be referred to by some URL, with the property
  * the merge evidently intends: the pass never deletes the copy of a file it
  * keeps.
  */
module StaleLoser {
  import opened FileHasher
  import opened Deduplication
  import opened SizeOrder
  import opened DedupeProperties

  // ---------------------------------------------------------------------------
  // The store that shows it
  // ---------------------------------------------------------------------------

  /** Three copies of one picture, of equal size; the middle one was settled in an earlier pass. */
  const FirstCopy: FileRow := FileRow(1, "a", true, None)
  const SettledCopy: FileRow := FileRow(2, "b", true, Some("00"))
  const LastCopy: FileRow := FileRow(3, "c", true, None)

  /** One processed URL per copy, none in an album, and every copy on disk. */
  const ThreeCopies: Store := Store(
    [FirstCopy, SettledCopy, LastCopy],
    [UrlRow(1, None, true), UrlRow(2, None, true), UrlRow(3, None, true)],
    {"a", "b", "c"})

  /** Every copy hashes alike. */
  const SameHash: Path -> string := (p: Path) => "00"

  /** Every copy has the same size: empty files, so a deleted path that reads as size 0 gives the same tie. */
  const NoSize: Path -> nat := (p: Path) => 0

  /** A pass over the tables kept every file's copy that was on disk before it. */
  predicate KeepsCopies(before: Store, after: Store) {
    forall f :: f in after.files && f.path in before.onDisk ==> f.path in after.onDisk
  }

  /** Both new copies need a hash; the settled one does not. */
  lemma ThreeCopiesUnfinished()
    ensures Unfinished(ThreeCopies.files, ThreeCopies.urls, 3) == [0, 2]
  {
    var s := ThreeCopies;
    NoAlbumUrls(s.urls, 1);
    NoAlbumUrls(s.urls, 3);
    assert Unfinished(s.files, s.urls, 1) == [0];
    assert Unfinished(s.files, s.urls, 2) == [0];
  }

  /** With every size equal, the survivor is the first of the files. */
  lemma TieKeepsOrder(x: FileRow, y: FileRow, z: FileRow)
    ensures ChooseBestFile([x, y], NoSize) == (x, [y])
    ensures ChooseBestFile([x, y, z], NoSize) == (x, [y, z])
  {
    var key := BySize(NoSize);
    assert key(x) == 0 && key(y) == 0 && key(z) == 0;
    assert SortDescending([z], key) == [z];
    assert [x, y, z][1..] == [y, z] && [y, z][1..] == [z] && [x, y][1..] == [y];
    assert SortDescending([y, z], key) == [y, z];
    assert SortDescending([x, y], key) == [x, y];
  }

  /** The tables after the first copy's turn. */
  const AfterFirstTurn: Store := Store(
    [FirstCopy.(hash := Some("00")), SettledCopy, LastCopy],
    [UrlRow(2, None, true), UrlRow(2, None, true), UrlRow(3, None, true)],
    {"b", "c"})

  /** Before the first turn only the settled copy matches. */
  lemma FirstTurnMatches()
    ensures Matches(ThreeCopies.files, ThreeCopies.urls, "00") == [SettledCopy]
  {
    var s := ThreeCopies;
    HammingDistanceZeroIffEqual("00", "00");
    assert CheckHashMatch(SettledCopy, s.urls, "00");
    assert s.files[1..] == [SettledCopy, LastCopy] && s.files[1..][1..] == [LastCopy];
    assert Matches([LastCopy], s.urls, "00") == [];
  }

  /** Before the last turn the first copy, which no URL refers to any more, matches as well. */
  lemma LastTurnMatches()
    ensures Matches(AfterFirstTurn.files, AfterFirstTurn.urls, "00") == [FirstCopy.(hash := Some("00")), SettledCopy]
  {
    var t := AfterFirstTurn;
    HammingDistanceZeroIffEqual("00", "00");
    assert CheckHashMatch(FirstCopy.(hash := Some("00")), t.urls, "00");
    assert CheckHashMatch(SettledCopy, t.urls, "00");
    assert t.files[1..] == [SettledCopy, LastCopy] && t.files[1..][1..] == [LastCopy];
    assert Matches([LastCopy], t.urls, "00") == [];
  }

  /** The tables after the last copy's turn, before pruning. */
  const AfterLastTurn: Store := Store(
    [FirstCopy.(hash := Some("00")), SettledCopy, LastCopy.(hash := Some("00"))],
    [UrlRow(1, None, true), UrlRow(1, None, true), UrlRow(1, None, true)],
    {})

  /** A file none of whose URLs has an album id is in no album. */
  lemma NoAlbumUrls(urls: seq<UrlRow>, id: FileId)
    requires forall k :: 0 <= k < |urls| ==> urls[k].albumId.None?
    ensures !InAlbum(urls, id)
  {
  }

  /** A turn that finds matches hands the merge to `UpgradeAll`, with the survivor and the others `_choose_best_file` picks. */
  lemma MergingTurn(s: Store, i: nat, idx: nat, stopAt: nat, bestHash: Path -> string, size: Path -> nat, merged: seq<FileRow>)
    requires i < |s.files| && Reached(s, i, idx, stopAt)
    requires merged == Matches(s.files, s.urls, bestHash(s.files[i].path)) + [Hashed(s, i, bestHash)] && |merged| > 1
    ensures ProcessFile(s, i, idx, stopAt, bestHash, size) ==
      UpgradeAll(s.(files := s.files[i := Hashed(s, i, bestHash)]), ChooseBestFile(merged, size).0, ChooseBestFile(merged, size).1)
  {
  }

  /** Turn 0 is reached, and the settled copy is its only match. */
  lemma FirstTurnFacts(s: Store)
    requires s == ThreeCopies
    ensures Reached(s, 0, 0, 10)
    ensures Matches(s.files, s.urls, SameHash(s.files[0].path)) + [Hashed(s, 0, SameHash)] == [SettledCopy, FirstCopy.(hash := Some("00"))]
    ensures s.(files := s.files[0 := Hashed(s, 0, SameHash)]) == ThreeCopies.(files := AfterFirstTurn.files)
  {
    NoAlbumUrls(s.urls, 1);
    FirstTurnMatches();
  }

  /** Turn 0: the first copy matches the settled one, loses the tie, and its URL moves away. */
  lemma FirstTurnMerges(s: Store)
    requires s == ThreeCopies
    ensures ProcessFile(s, 0, 0, 10, SameHash, NoSize) == AfterFirstTurn
  {
    FirstTurnFacts(s);
    TieKeepsOrder(SettledCopy, FirstCopy.(hash := Some("00")), LastCopy);
    MergingTurn(s, 0, 0, 10, SameHash, NoSize, [SettledCopy, FirstCopy.(hash := Some("00"))]);
    FirstTurnUpgrade();
  }

  /** The first copy's URL moves to the settled copy, and its own copy is deleted. */
  lemma FirstTurnUpgrade()
    ensures UpgradeAll(ThreeCopies.(files := AfterFirstTurn.files), SettledCopy, [FirstCopy.(hash := Some("00"))]) == AfterFirstTurn
  {
    var hashed := FirstCopy.(hash := Some("00"));
    var t := ThreeCopies.(files := AfterFirstTurn.files);
    assert [hashed][..0] == [];
    assert UpgradeAll(t, SettledCopy, [hashed]) == Upgrade(t, SettledCopy, hashed);
    assert Redirect(t.urls, 1, 2) == AfterFirstTurn.urls;
    assert t.onDisk - {"a"} == AfterFirstTurn.onDisk;
  }

  /** Turn 1 is reached, and both the first and the settled copy match. */
  lemma LastTurnFacts(s: Store)
    requires s == AfterFirstTurn
    ensures Reached(s, 2, 1, 10)
    ensures Matches(s.files, s.urls, SameHash(s.files[2].path)) + [Hashed(s, 2, SameHash)] ==
      [FirstCopy.(hash := Some("00")), SettledCopy, LastCopy.(hash := Some("00"))]
    ensures s.(files := s.files[2 := Hashed(s, 2, SameHash)]) == AfterFirstTurn.(files := AfterLastTurn.files)
  {
    NoAlbumUrls(s.urls, 3);
    LastTurnMatches();
  }

  /** Turn 1: the first copy comes first among the matches and wins the tie; every URL moves onto it and no copy stays on disk. */
  lemma LastTurnPicksLoser(s: Store)
    requires s == AfterFirstTurn
    ensures ProcessFile(s, 2, 1, 10, SameHash, NoSize) == AfterLastTurn
  {
    LastTurnFacts(s);
    TieKeepsOrder(FirstCopy.(hash := Some("00")), SettledCopy, LastCopy.(hash := Some("00")));
    MergingTurn(s, 2, 1, 10, SameHash, NoSize, [FirstCopy.(hash := Some("00")), SettledCopy, LastCopy.(hash := Some("00"))]);
    LastTurnUpgrade();
  }

  /** The URLs of the settled and the last copy move to the first copy, and both their copies are deleted. */
  lemma LastTurnUpgrade()
    ensures UpgradeAll(AfterFirstTurn.(files := AfterLastTurn.files), FirstCopy.(hash := Some("00")), [SettledCopy, LastCopy.(hash := Some("00"))]) == AfterLastTurn
  {
    var hashedFirst := FirstCopy.(hash := Some("00"));
    var hashed := LastCopy.(hash := Some("00"));
    var t := AfterFirstTurn.(files := AfterLastTurn.files);
    assert [SettledCopy, hashed][..1] == [SettledCopy] && [SettledCopy][..0] == [];
    var first := Upgrade(t, hashedFirst, SettledCopy);
    assert UpgradeAll(t, hashedFirst, [SettledCopy]) == first;
    assert UpgradeAll(t, hashedFirst, [SettledCopy, hashed]) == Upgrade(first, hashedFirst, hashed);
    assert first.urls == [UrlRow(1, None, true), UrlRow(1, None, true), UrlRow(3, None, true)];
    assert Redirect(first.urls, 3, 1) == AfterLastTurn.urls;
    assert t.onDisk - {"b"} - {"c"} == {};
  }

  /**
    * As written: the first copy loses to the settled one, is matched again by
    * the last copy's turn, and wins that tie. The pass ends with the first
    * copy's row holding every URL while no copy is left on disk.
    */
  lemma StaleLoserWins()
    ensures DedupePass(ThreeCopies, 10, SameHash, NoSize) ==
      Store([FirstCopy.(hash := Some("00"))], [UrlRow(1, None, true), UrlRow(1, None, true), UrlRow(1, None, true)], {})
    ensures !KeepsCopies(ThreeCopies, DedupePass(ThreeCopies, 10, SameHash, NoSize))
  {
    var s := ThreeCopies;
    ThreeCopiesUnfinished();
    FirstTurnMerges(s);
    LastTurnPicksLoser(AfterFirstTurn);
    assert ProcessPrefix(s, [0, 2], 1, 10, SameHash, NoSize) == AfterFirstTurn;
    assert ProcessAll(s, 10, SameHash, NoSize) == AfterLastTurn;
    OnlyFirstCopyReferenced();
  }

  /** Pruning keeps only the row every URL now refers to. */
  lemma OnlyFirstCopyReferenced()
    ensures PruneFiles(AfterLastTurn.files, AfterLastTurn.urls) == [FirstCopy.(hash := Some("00"))]
  {
    var t := AfterLastTurn;
    assert Referenced(t.urls, 1) by {
      assert t.urls[0].fileId == 1;
    }
    assert t.files[1..][1..] == [LastCopy.(hash := Some("00"))];
    assert PruneFiles(t.files[1..][1..], t.urls) == [];
    assert PruneFiles(t.files[1..], t.urls) == [];
  }

  // ---------------------------------------------------------------------------
  // The corrected turn
  // ---------------------------------------------------------------------------

  /** File paths are unique: no two rows name the same copy. */
  predicate DistinctPaths(files: seq<FileRow>) {
    forall a, b :: 0 <= a < b < |files| ==> files[a].path != files[b].path
  }

  /** Every file whose copy the pass deleted (on disk at the start, gone now) has no URL left. */
  predicate DeletedAreOrphans(start: set<Path>, s: Store) {
    forall j :: 0 <= j < |s.files| && s.files[j].path in start && s.files[j].path !in s.onDisk ==> !Referenced(s.urls, s.files[j].id)
  }

  /** The intended filter: a match must also still be referred to by some URL, so a file merged away earlier in the pass is no candidate. */
  function LiveMatches(files: seq<FileRow>, urls: seq<UrlRow>, searchHash: string): (matches: seq<FileRow>)
    ensures forall f :: f in matches <==> f in files && CheckHashMatch(f, urls, searchHash) && Referenced(urls, f.id)
    ensures multiset(matches) <= multiset(files)
  {
    if |files| == 0 then []
    else
      var rest := LiveMatches(files[1..], urls, searchHash);
      assert files == [files[0]] + files[1..];
      if CheckHashMatch(files[0], urls, searchHash) && Referenced(urls, files[0].id) then [files[0]] + rest else rest
  }

  /** One turn of the loop with the corrected filter; otherwise as `ProcessFile`. */
  function LiveTurn(s: Store, i: nat, idx: nat, stopAt: nat, bestHash: Path -> string, size: Path -> nat): (r: Store)
    requires i < |s.files|
    ensures SameFileRows(s.files, r.files) && SameUrlRows(s.urls, r.urls) && r.onDisk <= s.onDisk
    ensures forall j :: 0 <= j < |s.files| && j != i ==> r.files[j] == s.files[j]
  {
    if !Reached(s, i, idx, stopAt) then s
    else
      var hashed := Hashed(s, i, bestHash);
      var matches := LiveMatches(s.files, s.urls, hashed.hash.value);
      var t := s.(files := s.files[i := hashed]);
      if |matches| == 0 then t
      else
        var choice := ChooseBestFile(matches + [hashed], size);
        UpgradeAll(t, choice.0, choice.1)
  }

  /** With distinct ids no row occurs twice. */
  lemma {:induction false} DistinctIdsOnce(files: seq<FileRow>, x: FileRow)
    requires DistinctIds(files)
    ensures multiset(files)[x] <= 1
  {
    if |files| > 0 {
      var rest := files[1..];
      assert files == [files[0]] + rest;
      assert DistinctIds(rest) by {
        forall a, b | 0 <= a < b < |rest|
          ensures rest[a].id != rest[b].id
        {
          assert rest[a] == files[a + 1] && rest[b] == files[b + 1];
        }
      }
      DistinctIdsOnce(rest, x);
      if x == files[0] {
        forall k | 0 <= k < |rest|
          ensures rest[k] != x
        {
          assert rest[k] == files[k + 1];
        }
        assert x !in rest;
      }
    }
  }

  /** A file of the merge is the row at some table position, or the freshly hashed row at position i. */
  lemma MergedRowAt(t: Store, i: nat, bestHash: Path -> string, x: FileRow) returns (a: nat)
    requires i < |t.files|
    requires x in LiveMatches(t.files, t.urls, bestHash(t.files[i].path)) + [Hashed(t, i, bestHash)]
    ensures a < |t.files| && x.id == t.files[a].id && x.path == t.files[a].path
    ensures x == Hashed(t, i, bestHash) ==> a == i
    ensures x != Hashed(t, i, bestHash) ==> x == t.files[a] && x.hash.Some? && Referenced(t.urls, x.id)
  {
    if x == Hashed(t, i, bestHash) {
      a := i;
    } else {
      a :| 0 <= a < |t.files| && t.files[a] == x;
    }
  }

  /** The freshly hashed row is no live match: its position had no hash when the matches were looked up. */
  lemma HashedNotLive(t: Store, i: nat, bestHash: Path -> string)
    requires i < |t.files| && t.files[i].hash.None? && DistinctIds(t.files)
    ensures Hashed(t, i, bestHash) !in LiveMatches(t.files, t.urls, bestHash(t.files[i].path))
  {
    forall c | 0 <= c < |t.files|
      ensures t.files[c] != Hashed(t, i, bestHash)
    {
      if c != i {
        assert t.files[c].id != t.files[i].id;
      }
    }
  }

  /**
    * The survivor of a corrected merge is neither a file whose copy is already
    * gone nor one whose copy this merge deletes; a file whose copy this merge
    * deletes is among the others, so its URLs move to the survivor.
    */
  lemma SurvivorIsLive(start: set<Path>, t: Store, i: nat, bestHash: Path -> string, size: Path -> nat, j: nat)
    requires i < |t.files| && j < |t.files| && t.files[i].hash.None? && t.files[i].path in t.onDisk
    requires DistinctIds(t.files) && DistinctPaths(t.files) && DeletedAreOrphans(start, t)
    requires |LiveMatches(t.files, t.urls, bestHash(t.files[i].path))| > 0
    requires t.files[j].path in start
    ensures var choice := ChooseBestFile(LiveMatches(t.files, t.urls, bestHash(t.files[i].path)) + [Hashed(t, i, bestHash)], size);
      t.files[j].path !in t.onDisk - Paths(choice.1) ==>
        && choice.0.id != t.files[j].id
        && (t.files[j].path in t.onDisk ==> t.files[j].id in Ids(choice.1))
  {
    var matches := LiveMatches(t.files, t.urls, bestHash(t.files[i].path));
    var hashed := Hashed(t, i, bestHash);
    var merged := matches + [hashed];
    var choice := ChooseBestFile(merged, size);
    if t.files[j].path !in t.onDisk - Paths(choice.1) {
      assert choice.0 in multiset([choice.0] + choice.1);
      var b := MergedRowAt(t, i, bestHash, choice.0);
      if t.files[j].path !in t.onDisk {
        assert choice.0 == hashed ==> b != j;
      } else {
        var o :| o in choice.1 && o.path == t.files[j].path;
        assert o in multiset([choice.0] + choice.1);
        var a := MergedRowAt(t, i, bestHash, o);
        assert a == j;
        if choice.0.id == t.files[j].id {
          assert b == j;
          assert o == choice.0;
          assert multiset([choice.0] + choice.1) == multiset{choice.0} + multiset(choice.1);
          assert multiset(merged)[o] >= 2;
          DistinctIdsOnce(t.files, o);
          HashedNotLive(t, i, bestHash);
          assert false;
        }
      }
    }
  }

  /** A corrected merge moves no URL onto a file whose copy is gone, and leaves none on a file whose copy it deletes. */
  lemma LiveMergeKeepsOrphans(start: set<Path>, t: Store, i: nat, bestHash: Path -> string, size: Path -> nat)
    requires i < |t.files| && t.files[i].hash.None? && t.files[i].path in t.onDisk
    requires DistinctIds(t.files) && DistinctPaths(t.files) && DeletedAreOrphans(start, t)
    requires |LiveMatches(t.files, t.urls, bestHash(t.files[i].path))| > 0
    ensures var choice := ChooseBestFile(LiveMatches(t.files, t.urls, bestHash(t.files[i].path)) + [Hashed(t, i, bestHash)], size);
      DeletedAreOrphans(start, UpgradeAll(t.(files := t.files[i := Hashed(t, i, bestHash)]), choice.0, choice.1))
  {
    var hashed := Hashed(t, i, bestHash);
    var choice := ChooseBestFile(LiveMatches(t.files, t.urls, bestHash(t.files[i].path)) + [hashed], size);
    var r := UpgradeAll(t.(files := t.files[i := hashed]), choice.0, choice.1);
    UpgradeAllMoves(t.(files := t.files[i := hashed]), choice.0, choice.1);
    forall j | 0 <= j < |r.files| && r.files[j].path in start && r.files[j].path !in r.onDisk
      ensures !Referenced(r.urls, r.files[j].id)
    {
      SurvivorIsLive(start, t, i, bestHash, size, j);
      assert r.files[j].id == t.files[j].id && r.files[j].path == t.files[j].path;
      forall k | 0 <= k < |r.urls|
        ensures r.urls[k].fileId != t.files[j].id
      {
      }
    }
  }

  /** A corrected turn keeps every file whose copy the pass deleted an orphan. */
  lemma LiveTurnKeepsOrphans(start: set<Path>, t: Store, i: nat, idx: nat, stopAt: nat, bestHash: Path -> string, size: Path -> nat)
    requires i < |t.files| && t.files[i].hash.None?
    requires DistinctIds(t.files) && DistinctPaths(t.files) && DeletedAreOrphans(start, t)
    ensures DeletedAreOrphans(start, LiveTurn(t, i, idx, stopAt, bestHash, size))
  {
    if Reached(t, i, idx, stopAt) && |LiveMatches(t.files, t.urls, bestHash(t.files[i].path))| > 0 {
      LiveMergeKeepsOrphans(start, t, i, bestHash, size);
    }
  }

  /** The first n turns of the corrected loop over `unfinished`. */
  function LivePrefix(s: Store, unfinished: seq<nat>, n: nat, stopAt: nat, bestHash: Path -> string, size: Path -> nat): (r: Store)
    requires n <= |unfinished|
    requires forall k :: 0 <= k < |unfinished| ==> unfinished[k] < |s.files|
    ensures SameFileRows(s.files, r.files) && SameUrlRows(s.urls, r.urls) && r.onDisk <= s.onDisk
  {
    if n == 0 then s
    else LiveTurn(LivePrefix(s, unfinished, n - 1, stopAt, bestHash, size), unfinished[n - 1], n - 1, stopAt, bestHash, size)
  }

  /** `_dedupe` with the corrected filter: nothing when no file needs a hash; otherwise the loop, then `_prune`. */
  function LivePass(s: Store, stopAt: nat, bestHash: Path -> string, size: Path -> nat): (r: Store)
    ensures SameUrlRows(s.urls, r.urls) && r.onDisk <= s.onDisk && |r.files| <= |s.files|
  {
    var unfinished := Unfinished(s.files, s.urls, |s.files|);
    if |unfinished| == 0 then s
    else
      var t := LivePrefix(s, unfinished, |unfinished|, stopAt, bestHash, size);
      t.(files := PruneFiles(t.files, t.urls))
  }

  /** Rows that differ at most in their hashes keep distinct paths distinct. */
  lemma SameRowsKeepPaths(before: seq<FileRow>, after: seq<FileRow>)
    requires SameFileRows(before, after) && DistinctPaths(before)
    ensures DistinctPaths(after)
  {
    forall a, b | 0 <= a < b < |after|
      ensures after[a].path != after[b].path
    {
      assert after[a].path == before[a].path && after[b].path == before[b].path;
    }
  }

  /** The corrected turns before a file's own turn leave its row alone. */
  lemma {:induction false} LiveEarlierTurnsKeepRow(s: Store, unfinished: seq<nat>, n: nat, stopAt: nat, bestHash: Path -> string, size: Path -> nat, idx: nat)
    requires n <= idx < |unfinished|
    requires forall k :: 0 <= k < |unfinished| ==> unfinished[k] < |s.files|
    requires forall a, b :: 0 <= a < b < |unfinished| ==> unfinished[a] < unfinished[b]
    ensures LivePrefix(s, unfinished, n, stopAt, bestHash, size).files[unfinished[idx]] == s.files[unfinished[idx]]
  {
    hide LiveTurn;
    if n > 0 {
      LiveEarlierTurnsKeepRow(s, unfinished, n - 1, stopAt, bestHash, size, idx);
      assert unfinished[n - 1] < unfinished[idx];
    }
  }

  /** Before turn n the file of that turn still has no hash, and the rows keep distinct ids and paths. */
  lemma LivePrefixFacts(s: Store, unfinished: seq<nat>, n: nat, stopAt: nat, bestHash: Path -> string, size: Path -> nat)
    requires n < |unfinished|
    requires forall k :: 0 <= k < |unfinished| ==> unfinished[k] < |s.files| && s.files[unfinished[k]].hash.None?
    requires forall a, b :: 0 <= a < b < |unfinished| ==> unfinished[a] < unfinished[b]
    requires DistinctIds(s.files) && DistinctPaths(s.files)
    ensures var t := LivePrefix(s, unfinished, n, stopAt, bestHash, size);
      && t.files[unfinished[n]].hash.None? && DistinctIds(t.files) && DistinctPaths(t.files)
  {
    hide LiveTurn;
    var t := LivePrefix(s, unfinished, n, stopAt, bestHash, size);
    LiveEarlierTurnsKeepRow(s, unfinished, n, stopAt, bestHash, size, n);
    SameRowsKeepIds(s.files, t.files);
    SameRowsKeepPaths(s.files, t.files);
  }

  /** Turn n - 1 of the corrected loop keeps the invariant the earlier turns established. */
  lemma LivePrefixStep(s: Store, unfinished: seq<nat>, n: nat, stopAt: nat, bestHash: Path -> string, size: Path -> nat)
    requires 0 < n <= |unfinished|
    requires forall k :: 0 <= k < |unfinished| ==> unfinished[k] < |s.files|
    requires var t := LivePrefix(s, unfinished, n - 1, stopAt, bestHash, size);
      && t.files[unfinished[n - 1]].hash.None? && DistinctIds(t.files) && DistinctPaths(t.files)
      && DeletedAreOrphans(s.onDisk, t)
    ensures DeletedAreOrphans(s.onDisk, LivePrefix(s, unfinished, n, stopAt, bestHash, size))
  {
    hide LiveTurn;
    LiveTurnKeepsOrphans(s.onDisk, LivePrefix(s, unfinished, n - 1, stopAt, bestHash, size), unfinished[n - 1], n - 1, stopAt, bestHash, size);
  }

  /** Every corrected turn keeps the files whose copies the loop deleted orphans. */
  lemma {:induction false} LivePrefixKeepsOrphans(s: Store, unfinished: seq<nat>, n: nat, stopAt: nat, bestHash: Path -> string, size: Path -> nat)
    requires n <= |unfinished|
    requires forall k :: 0 <= k < |unfinished| ==> unfinished[k] < |s.files| && s.files[unfinished[k]].hash.None?
    requires forall a, b :: 0 <= a < b < |unfinished| ==> unfinished[a] < unfinished[b]
    requires DistinctIds(s.files) && DistinctPaths(s.files)
    ensures DeletedAreOrphans(s.onDisk, LivePrefix(s, unfinished, n, stopAt, bestHash, size))
  {
    hide LiveTurn;
    if n > 0 {
      LivePrefixKeepsOrphans(s, unfinished, n - 1, stopAt, bestHash, size);
      LivePrefixFacts(s, unfinished, n - 1, stopAt, bestHash, size);
      LivePrefixStep(s, unfinished, n, stopAt, bestHash, size);
    }
  }

  /** With the corrected filter, a pass never deletes the copy of a file it keeps. */
  lemma LivePassKeepsCopies(s: Store, stopAt: nat, bestHash: Path -> string, size: Path -> nat)
    requires DistinctIds(s.files) && DistinctPaths(s.files)
    ensures KeepsCopies(s, LivePass(s, stopAt, bestHash, size))
  {
    hide LiveTurn;
    var unfinished := Unfinished(s.files, s.urls, |s.files|);
    if |unfinished| > 0 {
      UnfinishedIsComplete(s.files, s.urls, |s.files|);
      var t := LivePrefix(s, unfinished, |unfinished|, stopAt, bestHash, size);
      LivePrefixKeepsOrphans(s, unfinished, |unfinished|, stopAt, bestHash, size);
      forall f | f in PruneFiles(t.files, t.urls) && f.path in s.onDisk
        ensures f.path in t.onDisk
      {
        var j :| 0 <= j < |t.files| && t.files[j] == f;
      }
    }
  }

  /** On the store above, the corrected pass keeps a copy of the picture. */
  lemma LivePassKeepsThreeCopies()
    ensures KeepsCopies(ThreeCopies, LivePass(ThreeCopies, 10, SameHash, NoSize))
  {
    LivePassKeepsCopies(ThreeCopies, 10, SameHash, NoSize);
  }
}
