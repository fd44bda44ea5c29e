/**
 * `gen_sav_encodings_dict`: the stem -> encoding cache of the known-faces
 * folder, built from scratch when its file is missing and otherwise patched
 * with the change report of the folder's snapshot.
 */
module EncodingCache {
  import opened Wrappers
  import opened PyDict
  import opened PosixPath
  import opened Facekit
  import FM = FolderManager

  /** stem of a known image -> the encoding of its first face. */
  type EncodingDict = Dict<Encoding>

  /** The cache file `encoding.json`. */
  datatype EncodingFile = NoFile | Saved(dict: EncodingDict)

  /** A compatible file name whose stem is `k`: the key its encoding is stored under. */
  predicate Writes(f: string, k: string) {
    IsCompatible(f) && Stem(f) == k
  }

  // ---------------------------------------------------------------- adding files

  /**
   * One name of the bootstrap listing or of `change['new']` (lines 171-175,
   * 229-235): skipped when its extension is not compatible, otherwise its
   * first encoding is stored under its stem; `[0]` raises when there is no face.
   */
  function AddFile(d: EncodingDict, f: string, known: string, lib: FaceLibrary): (r: Result<EncodingDict>)
    ensures Valid(d) && r.Ok? ==> Valid(r.value)
  {
    if !IsCompatible(f) then Ok(d)
    else
      var encs := lib.fileEncodings(known + f);
      if encs == [] then Raise(IndexError) else Ok(Set(d, Stem(f), encs[0]))
  }

  /** `AddFile` for each name in turn, stopping at the first exception. */
  function AddAll(d: EncodingDict, names: seq<string>, known: string, lib: FaceLibrary): (r: Result<EncodingDict>)
    ensures Valid(d) && r.Ok? ==> Valid(r.value)
  {
    if names == [] then Ok(d)
    else
      match AddAll(d, names[..|names| - 1], known, lib)
      case Raise(e) => Raise(e)
      case Ok(d') => AddFile(d', names[|names| - 1], known, lib)
  }

  /** A compatible file in which no face is found: adding it raises. */
  predicate Faceless(f: string, known: string, lib: FaceLibrary) {
    IsCompatible(f) && lib.fileEncodings(known + f) == []
  }

  /** Adding raises (always IndexError) iff some compatible name has no face. */
  lemma {:induction false} AddAllRaises(d: EncodingDict, names: seq<string>, known: string, lib: FaceLibrary)
    ensures AddAll(d, names, known, lib).Raise? <==> exists i :: 0 <= i < |names| && Faceless(names[i], known, lib)
    ensures AddAll(d, names, known, lib).Raise? ==> AddAll(d, names, known, lib).error == IndexError
  {
    if names != [] {
      var n := |names| - 1;
      var p, x := names[..n], names[n];
      AddAllRaises(d, p, known, lib);
      assert forall i :: 0 <= i < n ==> p[i] == names[i];
      if AddAll(d, p, known, lib).Ok? {
        assert AddAll(d, names, known, lib) == AddFile(AddAll(d, p, known, lib).value, x, known, lib);
      }
    }
  }

  /** After adding, key `k` is present iff it was or some compatible name has stem `k`. */
  lemma {:induction false} AddAllKeys(d: EncodingDict, names: seq<string>, known: string, lib: FaceLibrary, k: string)
    requires AddAll(d, names, known, lib).Ok?
    ensures HasKey(AddAll(d, names, known, lib).value, k) <==>
              HasKey(d, k) || exists i :: 0 <= i < |names| && Writes(names[i], k)
  {
    if names != [] {
      var n := |names| - 1;
      var p, x := names[..n], names[n];
      AddAllKeys(d, p, known, lib, k);
      assert forall i :: 0 <= i < n ==> p[i] == names[i];
      var d1 := AddAll(d, p, known, lib).value;
      assert AddAll(d, names, known, lib) == AddFile(d1, x, known, lib);
    }
  }

  /** A key that no added name writes keeps its old value. */
  lemma {:induction false} AddAllUntouched(d: EncodingDict, names: seq<string>, known: string, lib: FaceLibrary, k: string)
    requires AddAll(d, names, known, lib).Ok? && HasKey(d, k)
    requires forall i :: 0 <= i < |names| ==> !Writes(names[i], k)
    ensures HasKey(AddAll(d, names, known, lib).value, k)
    ensures Get(AddAll(d, names, known, lib).value, k) == Get(d, k)
  {
    if names != [] {
      var n := |names| - 1;
      var p, x := names[..n], names[n];
      assert forall i :: 0 <= i < n ==> p[i] == names[i];
      AddAllUntouched(d, p, known, lib, k);
      var d1 := AddAll(d, p, known, lib).value;
      assert AddAll(d, names, known, lib) == AddFile(d1, x, known, lib);
    }
  }

  /** Last write wins: a key holds the first encoding of the last compatible name with that stem. */
  lemma {:induction false} AddAllLastWriter(d: EncodingDict, names: seq<string>, known: string, lib: FaceLibrary, k: string, i: nat)
    requires AddAll(d, names, known, lib).Ok?
    requires i < |names| && Writes(names[i], k)
    requires forall j :: i < j < |names| ==> !Writes(names[j], k)
    ensures lib.fileEncodings(known + names[i]) != []
    ensures HasKey(AddAll(d, names, known, lib).value, k)
    ensures Get(AddAll(d, names, known, lib).value, k) == lib.fileEncodings(known + names[i])[0]
  {
    AddAllRaises(d, names, known, lib);
    var n := |names| - 1;
    var p, x := names[..n], names[n];
    var d1 := AddAll(d, p, known, lib).value;
    assert AddAll(d, names, known, lib) == AddFile(d1, x, known, lib);
    if i < n {
      assert p[i] == names[i];
      assert forall j :: i < j < n ==> p[j] == names[j];
      AddAllLastWriter(d, p, known, lib, k, i);
    }
  }

  /**
   * The cache's keys after adding `names` to a cache with keys `ks`: the
   * stem of each compatible name is appended unless it is already a key.
   */
  function AddedKeys(ks: seq<string>, names: seq<string>): seq<string> {
    if names == [] then ks
    else
      var n := |names| - 1;
      var p := AddedKeys(ks, names[..n]);
      if IsCompatible(names[n]) && Stem(names[n]) !in p then p + [Stem(names[n])] else p
  }

  /** The insertion loop orders the keys as AddedKeys says. */
  lemma {:induction false} AddAllKeyOrder(d: EncodingDict, names: seq<string>, known: string, lib: FaceLibrary)
    requires AddAll(d, names, known, lib).Ok?
    ensures Keys(AddAll(d, names, known, lib).value) == AddedKeys(Keys(d), names)
  {
    if names != [] {
      var n := |names| - 1;
      var p, x := names[..n], names[n];
      AddAllKeyOrder(d, p, known, lib);
      var d1 := AddAll(d, p, known, lib).value;
      assert AddAll(d, names, known, lib) == AddFile(d1, x, known, lib);
    }
  }

  lemma {:induction false} AddedKeysExtends(ks: seq<string>, names: seq<string>)
    ensures |ks| <= |AddedKeys(ks, names)| && AddedKeys(ks, names)[..|ks|] == ks
  {
    if names != [] {
      var n := |names| - 1;
      AddedKeysExtends(ks, names[..n]);
      var p := AddedKeys(ks, names[..n]);
      assert (p + [Stem(names[n])])[..|ks|] == p[..|ks|];
    }
  }

  /** Adding never moves an old key: the old keys stay first, in their order. */
  lemma AddAllKeepsOrder(d: EncodingDict, names: seq<string>, known: string, lib: FaceLibrary)
    requires AddAll(d, names, known, lib).Ok?
    ensures |d| <= |AddAll(d, names, known, lib).value|
    ensures Keys(AddAll(d, names, known, lib).value)[..|d|] == Keys(d)
  {
    AddAllKeyOrder(d, names, known, lib);
    AddedKeysExtends(Keys(d), names);
  }

  /** The stems of the compatible names, in order. */
  function CompatibleStems(names: seq<string>): seq<string> {
    if names == [] then []
    else
      var n := |names| - 1;
      CompatibleStems(names[..n]) + (if IsCompatible(names[n]) then [Stem(names[n])] else [])
  }

  lemma {:induction false} AddedKeysFresh(names: seq<string>)
    requires FM.Distinct(CompatibleStems(names))
    ensures AddedKeys([], names) == CompatibleStems(names)
  {
    if names != [] {
      var n := |names| - 1;
      var p, x := names[..n], names[n];
      var cs := CompatibleStems(p);
      assert forall j :: 0 <= j < |cs| ==> CompatibleStems(names)[j] == cs[j];
      AddedKeysFresh(p);
      if IsCompatible(x) {
        assert CompatibleStems(names)[|cs|] == Stem(x);
        assert Stem(x) !in cs;
      }
    }
  }

  /**
   * The first-run cache holds the stems of the compatible non-directory
   * files in listing order, when no two of them share a stem.
   */
  lemma BootstrapKeyOrder(listing: seq<string>, isDir: string -> bool, known: string, lib: FaceLibrary)
    requires Bootstrap(listing, isDir, known, lib).Ok?
    requires FM.Distinct(CompatibleStems(FM.NonDirs(listing, isDir)))
    ensures Keys(Bootstrap(listing, isDir, known, lib).value) == CompatibleStems(FM.NonDirs(listing, isDir))
  {
    var files := FM.NonDirs(listing, isDir);
    AddAllKeyOrder([], files, known, lib);
    AddedKeysFresh(files);
  }

  // ---------------------------------------------------------------- deleting files

  /**
   * One name of `change['deleted']` (lines 243-248): skipped when its
   * extension is not compatible, otherwise its stem is popped, which raises
   * when the stem is not a key.
   */
  function DropFile(d: EncodingDict, f: string): (r: Result<EncodingDict>)
    requires Valid(d)
    ensures r.Ok? ==> Valid(r.value)
  {
    if !IsCompatible(f) then Ok(d)
    else if !HasKey(d, Stem(f)) then Raise(KeyError)
    else Ok(Remove(d, Stem(f)))
  }

  /** `DropFile` for each name in turn, stopping at the first exception. */
  function DropAll(d: EncodingDict, names: seq<string>): (r: Result<EncodingDict>)
    requires Valid(d)
    ensures r.Ok? ==> Valid(r.value)
  {
    if names == [] then Ok(d)
    else
      match DropAll(d, names[..|names| - 1])
      case Raise(e) => Raise(e)
      case Ok(d') => DropFile(d', names[|names| - 1])
  }

  /** After deleting: exactly the keys no compatible name has as stem remain, with their values. */
  lemma {:induction false} DropAllContents(d: EncodingDict, names: seq<string>, k: string)
    requires Valid(d) && DropAll(d, names).Ok?
    ensures HasKey(DropAll(d, names).value, k) <==>
              HasKey(d, k) && forall i :: 0 <= i < |names| ==> !Writes(names[i], k)
    ensures HasKey(DropAll(d, names).value, k) ==> Get(DropAll(d, names).value, k) == Get(d, k)
  {
    if names != [] {
      var n := |names| - 1;
      var p, x := names[..n], names[n];
      assert forall i :: 0 <= i < n ==> p[i] == names[i];
      DropAllContents(d, p, k);
      var d1 := DropAll(d, p).value;
      assert DropAll(d, names) == DropFile(d1, x);
      if IsCompatible(x) {
        assert DropAll(d, names).value == Remove(d1, Stem(x));
      }
    }
  }

  /**
   * Popping for the name at position `i` raises: its extension is
   * compatible and its stem is not a key to begin with, or was already
   * popped for an earlier name.
   */
  predicate PopFails(d: EncodingDict, names: seq<string>, i: nat)
    requires i < |names|
  {
    IsCompatible(names[i]) && (!HasKey(d, Stem(names[i])) || exists j :: 0 <= j < i && Writes(names[j], Stem(names[i])))
  }

  /** Whether a pop fails depends only on the names up to it. */
  lemma PopFailsPrefix(d: EncodingDict, names: seq<string>, n: nat, i: nat)
    requires i < n <= |names|
    ensures PopFails(d, names[..n], i) == PopFails(d, names, i)
  {
    assert forall j :: 0 <= j <= i ==> names[..n][j] == names[j];
  }

  /** Deleting raises (always KeyError) iff some pop fails. */
  lemma {:induction false} DropAllRaises(d: EncodingDict, names: seq<string>)
    requires Valid(d)
    ensures DropAll(d, names).Raise? <==> exists i :: 0 <= i < |names| && PopFails(d, names, i)
    ensures DropAll(d, names).Raise? ==> DropAll(d, names).error == KeyError
  {
    if names != [] {
      var n := |names| - 1;
      var p, x := names[..n], names[n];
      DropAllRaises(d, p);
      forall i | 0 <= i < n ensures PopFails(d, p, i) == PopFails(d, names, i) {
        PopFailsPrefix(d, names, n, i);
      }
      if DropAll(d, p).Ok? {
        var d1 := DropAll(d, p).value;
        assert DropAll(d, names) == DropFile(d1, x);
        DropAllContents(d, p, Stem(x));
        assert forall j :: 0 <= j < n ==> p[j] == names[j];
        assert IsCompatible(x) ==> (HasKey(d1, Stem(x)) <==> !PopFails(d, names, n));
      }
    }
  }

  // ---------------------------------------------------------------- bootstrap and patch

  /** Lines 165-175: every listed name that `isDir` (asked about the bare name) rejects, in order. */
  function Bootstrap(listing: seq<string>, isDir: string -> bool, known: string, lib: FaceLibrary): Result<EncodingDict> {
    AddAll([], FM.NonDirs(listing, isDir), known, lib)
  }

  /** Lines 221-248: all insertions for `change['new']`, then all pops for `change['deleted']`. */
  function Patch(d: EncodingDict, c: FM.Change, known: string, lib: FaceLibrary): Result<EncodingDict>
    requires Valid(d)
  {
    match AddAll(d, c.added, known, lib)
    case Raise(e) => Raise(e)
    case Ok(d') => DropAll(d', c.deleted)
  }

  /**
   * The bootstrap keys are the stems of the compatible non-directory names;
   * it raises iff one of those has no face.
   */
  lemma BootstrapContents(listing: seq<string>, isDir: string -> bool, known: string, lib: FaceLibrary, k: string)
    ensures Bootstrap(listing, isDir, known, lib).Raise? <==>
              exists f :: f in listing && !isDir(f) && Faceless(f, known, lib)
    ensures Bootstrap(listing, isDir, known, lib).Ok? ==>
              (HasKey(Bootstrap(listing, isDir, known, lib).value, k) <==>
               exists f :: f in listing && !isDir(f) && Writes(f, k))
  {
    var files := FM.NonDirs(listing, isDir);
    FM.NonDirsMembers(listing, isDir);
    AddAllRaises([], files, known, lib);
    if AddAll([], files, known, lib).Ok? {
      AddAllKeys([], files, known, lib, k);
      if exists f :: f in listing && !isDir(f) && Writes(f, k) {
        var f :| f in listing && !isDir(f) && Writes(f, k);
        var i :| 0 <= i < |files| && files[i] == f;
      }
    }
    if exists f :: f in listing && !isDir(f) && Faceless(f, known, lib) {
      var f :| f in listing && !isDir(f) && Faceless(f, known, lib);
      var i :| 0 <= i < |files| && files[i] == f;
    }
  }

  /**
   * Deletions run after all insertions: a stem that a compatible deleted
   * name has is absent afterwards, even when an added name wrote it.
   */
  lemma PatchDeletedStemAbsent(d: EncodingDict, c: FM.Change, known: string, lib: FaceLibrary, k: string, i: nat)
    requires Valid(d) && Patch(d, c, known, lib).Ok?
    requires i < |c.deleted| && Writes(c.deleted[i], k)
    ensures !HasKey(Patch(d, c, known, lib).value, k)
  {
    DropAllContents(AddAll(d, c.added, known, lib).value, c.deleted, k);
  }

  /** A stem no changed name writes is present after the patch iff it was before, with its old value. */
  lemma PatchUntouched(d: EncodingDict, c: FM.Change, known: string, lib: FaceLibrary, k: string)
    requires Valid(d) && Patch(d, c, known, lib).Ok?
    requires forall i :: 0 <= i < |c.added| ==> !Writes(c.added[i], k)
    requires forall i :: 0 <= i < |c.deleted| ==> !Writes(c.deleted[i], k)
    ensures HasKey(Patch(d, c, known, lib).value, k) <==> HasKey(d, k)
    ensures HasKey(d, k) ==> Get(Patch(d, c, known, lib).value, k) == Get(d, k)
  {
    AddAllKeys(d, c.added, known, lib, k);
    if HasKey(d, k) {
      AddAllUntouched(d, c.added, known, lib, k);
    }
    DropAllContents(AddAll(d, c.added, known, lib).value, c.deleted, k);
  }

  /** A stem written by added names only holds the first encoding of the last of them. */
  lemma PatchAddedStem(d: EncodingDict, c: FM.Change, known: string, lib: FaceLibrary, k: string, i: nat)
    requires Valid(d) && Patch(d, c, known, lib).Ok?
    requires i < |c.added| && Writes(c.added[i], k)
    requires forall j :: i < j < |c.added| ==> !Writes(c.added[j], k)
    requires forall j :: 0 <= j < |c.deleted| ==> !Writes(c.deleted[j], k)
    ensures lib.fileEncodings(known + c.added[i]) != []
    ensures HasKey(Patch(d, c, known, lib).value, k)
    ensures Get(Patch(d, c, known, lib).value, k) == lib.fileEncodings(known + c.added[i])[0]
  {
    AddAllLastWriter(d, c.added, known, lib, k, i);
    DropAllContents(AddAll(d, c.added, known, lib).value, c.deleted, k);
  }

  /** Some compatible name among `names` has stem `k`. */
  predicate Popped(names: seq<string>, k: string) {
    exists i :: 0 <= i < |names| && Writes(names[i], k)
  }

  /** The keys `ks` that no compatible name among `names` has as stem, in order. */
  function KeptKeys(ks: seq<string>, names: seq<string>): seq<string> {
    if ks == [] then []
    else
      var n := |ks| - 1;
      KeptKeys(ks[..n], names) + (if Popped(names, ks[n]) then [] else [ks[n]])
  }

  lemma {:induction false} KeptKeysNone(ks: seq<string>)
    ensures KeptKeys(ks, []) == ks
  {
    if ks != [] {
      var n := |ks| - 1;
      KeptKeysNone(ks[..n]);
      assert ks[..n] + [ks[n]] == ks;
    }
  }

  lemma PoppedSnoc(names: seq<string>, x: string, k: string)
    ensures Popped(names + [x], k) <==> Popped(names, k) || Writes(x, k)
  {
    if Popped(names, k) {
      var i :| 0 <= i < |names| && Writes(names[i], k);
      assert (names + [x])[i] == names[i];
    }
    if Writes(x, k) {
      assert (names + [x])[|names|] == x;
    }
    if Popped(names + [x], k) {
      var i :| 0 <= i < |names| + 1 && Writes((names + [x])[i], k);
      if i < |names| {
        assert (names + [x])[i] == names[i];
      }
    }
  }

  /** One more deleted name takes its stem out of the kept keys. */
  lemma {:induction false} KeptKeysSnoc(ks: seq<string>, names: seq<string>, x: string)
    ensures KeptKeys(ks, names + [x]) ==
              if IsCompatible(x) then Without(KeptKeys(ks, names), Stem(x)) else KeptKeys(ks, names)
  {
    if ks != [] {
      var n := |ks| - 1;
      var k := ks[n];
      KeptKeysSnoc(ks[..n], names, x);
      PoppedSnoc(names, x, k);
      var kept := KeptKeys(ks[..n], names);
      assert KeptKeys(ks, names) == kept + (if Popped(names, k) then [] else [k]);
      assert KeptKeys(ks, names + [x]) == KeptKeys(ks[..n], names + [x]) + (if Popped(names + [x], k) then [] else [k]);
      if IsCompatible(x) {
        if Popped(names, k) {
          assert kept + [] == kept;
        } else {
          WithoutSnoc(kept, k, Stem(x));
        }
      }
    }
  }

  /** The pop loop keeps the order of the keys it does not pop. */
  lemma {:induction false} DropAllKeyOrder(d: EncodingDict, names: seq<string>)
    requires Valid(d) && DropAll(d, names).Ok?
    ensures Keys(DropAll(d, names).value) == KeptKeys(Keys(d), names)
  {
    if names == [] {
      KeptKeysNone(Keys(d));
    } else {
      var n := |names| - 1;
      var p, x := names[..n], names[n];
      DropAllKeyOrder(d, p);
      var d1 := DropAll(d, p).value;
      assert DropAll(d, names) == DropFile(d1, x);
      assert p + [x] == names;
      KeptKeysSnoc(Keys(d), p, x);
      if IsCompatible(x) {
        RemoveIsWithout(d1, Stem(x));
      }
    }
  }

  /** The patched cache: old keys first, then new stems, with the deleted stems taken out, in order. */
  lemma PatchKeyOrder(d: EncodingDict, c: FM.Change, known: string, lib: FaceLibrary)
    requires Valid(d) && Patch(d, c, known, lib).Ok?
    ensures Keys(Patch(d, c, known, lib).value) == KeptKeys(AddedKeys(Keys(d), c.added), c.deleted)
  {
    AddAllKeyOrder(d, c.added, known, lib);
    DropAllKeyOrder(AddAll(d, c.added, known, lib).value, c.deleted);
  }

  // ---------------------------------------------------------------- one call, end to end

  /** What one call returns or raises, and the two files afterwards. */
  datatype Run = Run(returned: Result<EncodingDict>, encoding: EncodingFile, modate: FM.SnapshotFile)

  /**
   * `gen_sav_encodings_dict(known)` given the two files before the call.
   * The bootstrap writes both files only after every encoding was made; the
   * incremental path renews the snapshot first, and rewrites the cache only
   * when the report says something changed and the patch did not raise.
   */
  function GenSav(enc: EncodingFile, snap: FM.SnapshotFile, fs: FM.FileSystem, lib: FaceLibrary, known: string): Run
    requires enc.Saved? ==> Valid(enc.dict)
  {
    match enc
    case NoFile =>
      var r := Bootstrap(fs.listDir(known), fs.isDir, known, lib);
      if r.Raise? then Run(r, enc, snap)
      else Run(r, Saved(r.value), FM.Stored(FM.ModateOf(fs, known)))
    case Saved(cache) =>
      var cur := FM.ModateOf(fs, known);
      var renewed := FM.RenewedFile(snap, cur);
      match FM.ChangeReport(snap, cur)
      case Raise(e) => Run(Raise(e), enc, renewed)
      case Ok(c) =>
        if !c.isChanged then Run(Ok(cache), enc, renewed)
        else
          var r := Patch(cache, c, known, lib);
          Run(r, if r.Ok? then Saved(r.value) else enc, renewed)
  }

  /**
   * A folder unchanged since its snapshot was stored, the snapshot being
   * non-empty: the stored mapping is returned as it is and the cache file
   * is not rewritten.
   */
  lemma UnchangedFolderKeepsCache(d: EncodingDict, fs: FM.FileSystem, lib: FaceLibrary, known: string)
    requires Valid(d) && FM.ModateOf(fs, known) != []
    ensures GenSav(Saved(d), FM.Stored(FM.ModateOf(fs, known)), fs, lib, known)
              == Run(Ok(d), Saved(d), FM.Stored(FM.ModateOf(fs, known)))
  {
    var cur := FM.ModateOf(fs, known);
    FM.UnchangedFolderReportsNothing(cur);
    assert FM.ChangeReport(FM.Stored(cur), cur) == Ok(FM.Change(false, [], []));
    assert FM.RenewedFile(FM.Stored(cur), cur) == FM.Stored(cur);
  }

  /**
   * After a bootstrap over a folder with no files at all, the next call
   * raises: the stored snapshot is `{}`, the listing is empty and `is_new`
   * is never bound.
   */
  lemma EmptyFolderRaisesOnSecondCall(fs: FM.FileSystem, lib: FaceLibrary, known: string)
    requires FM.ModateOf(fs, known) == []
    ensures GenSav(NoFile, FM.Missing, fs, lib, known).returned == Ok([])
    ensures var first := GenSav(NoFile, FM.Missing, fs, lib, known);
            GenSav(first.encoding, first.modate, fs, lib, known).returned == Raise(UnboundLocalError)
  {
    var files := FM.NonDirs(fs.listDir(known), fs.isDir);
    FM.RecordKeys(known, files, fs.getMtime);
    assert files == [];
  }

  /**
   * A patch that raises leaves the snapshot renewed and the cache file as it
   * was, so the next call over the same folder reports no change and
   * returns the stale cache.
   */
  lemma RaisingPatchLeavesCacheStale(d: EncodingDict, snap: FM.SnapshotFile, fs: FM.FileSystem, lib: FaceLibrary, known: string)
    requires Valid(d) && GenSav(Saved(d), snap, fs, lib, known).returned.Raise?
    requires FM.ChangeReport(snap, FM.ModateOf(fs, known)).Ok?
    ensures var first := GenSav(Saved(d), snap, fs, lib, known);
            && first.encoding == Saved(d)
            && first.modate == FM.Stored(FM.ModateOf(fs, known))
            && GenSav(first.encoding, first.modate, fs, lib, known).returned == Ok(d)
  {
    var cur := FM.ModateOf(fs, known);
    assert cur != [] || snap.Null?;
    if cur != [] {
      FM.UnchangedFolderReportsNothing(cur);
    }
  }

  /** The cache used by the recognition flow, and the snapshot file beside it. */
  class KnownCache {
    var encoding: EncodingFile
    const modate: FM.ModateFile

    ghost predicate Valid()
      reads this
    {
      encoding.Saved? ==> PyDict.Valid(encoding.dict)
    }

    constructor (enc: EncodingFile, snapshotFile: FM.ModateFile)
      requires enc.Saved? ==> PyDict.Valid(enc.dict)
      ensures Valid() && encoding == enc && modate == snapshotFile
    {
      encoding := enc;
      modate := snapshotFile;
    }

    /** `gen_sav_encodings_dict(known)` */
    method GenSavEncodingsDict(fs: FM.FileSystem, lib: FaceLibrary, known: string) returns (r: Result<EncodingDict>)
      requires Valid()
      modifies this, modate
      ensures Valid()
      ensures Run(r, encoding, modate.content) == GenSav(old(encoding), old(modate.content), fs, lib, known)
    {
      if encoding.NoFile? {
        r := BuildEncodings(fs, lib, known);
        if r.Ok? {
          encoding := Saved(r.value);
          var modateDict := FM.ParseModate(fs, known);
          modate.SaveDict(modateDict);
        }
      } else {
        var report := modate.GetChangeAndRenew(fs, known);
        if report.Raise? {
          return Raise(report.error);
        }
        var d := encoding.dict;
        if !report.value.isChanged {
          return Ok(d);
        }
        r := AddEncodings(d, report.value.added, known, lib);
        if r.Ok? {
          r := DropEncodings(r.value, report.value.deleted);
          if r.Ok? {
            encoding := Saved(r.value);
          }
        }
      }
    }
  }

  /** Adding one more name at the end. */
  lemma AddAllSnoc(d: EncodingDict, names: seq<string>, x: string, known: string, lib: FaceLibrary)
    ensures AddAll(d, names + [x], known, lib) ==
              if AddAll(d, names, known, lib).Raise? then AddAll(d, names, known, lib)
              else AddFile(AddAll(d, names, known, lib).value, x, known, lib)
  {
    assert (names + [x])[..|names|] == names;
  }

  /** One more name of the listing: the step the bootstrap loop takes. */
  lemma BootstrapStep(listing: seq<string>, i: nat, isDir: string -> bool, known: string, lib: FaceLibrary)
    requires i < |listing|
    ensures var before := AddAll([], FM.NonDirs(listing[..i], isDir), known, lib);
            AddAll([], FM.NonDirs(listing[..i + 1], isDir), known, lib) ==
              if isDir(listing[i]) || before.Raise? then before else AddFile(before.value, listing[i], known, lib)
  {
    var files := FM.NonDirs(listing[..i], isDir);
    FM.NonDirsStep(listing, i, isDir);
    if isDir(listing[i]) {
      assert FM.NonDirs(listing[..i + 1], isDir) == files + [];
      assert files + [] == files;
    } else {
      assert FM.NonDirs(listing[..i + 1], isDir) == files + [listing[i]];
      AddAllSnoc([], files, listing[i], known, lib);
    }
  }

  /** Once an exception is raised, the later names change nothing. */
  lemma {:induction false} AddAllRaiseSticky(d: EncodingDict, a: seq<string>, b: seq<string>, known: string, lib: FaceLibrary)
    requires AddAll(d, a, known, lib).Raise?
    ensures AddAll(d, a + b, known, lib) == AddAll(d, a, known, lib)
    decreases |b|
  {
    if b == [] {
      assert a + b == a;
    } else {
      var c := a + b;
      assert c[..|c| - 1] == a + b[..|b| - 1];
      AddAllRaiseSticky(d, a, b[..|b| - 1], known, lib);
    }
  }

  /** Once an exception is raised, the later names change nothing. */
  lemma {:induction false} DropAllRaiseSticky(d: EncodingDict, a: seq<string>, b: seq<string>)
    requires Valid(d) && DropAll(d, a).Raise?
    ensures DropAll(d, a + b) == DropAll(d, a)
    decreases |b|
  {
    if b == [] {
      assert a + b == a;
    } else {
      var c := a + b;
      assert c[..|c| - 1] == a + b[..|b| - 1];
      DropAllRaiseSticky(d, a, b[..|b| - 1]);
    }
  }

  /** An exception at position `n` of the listing ends the bootstrap. */
  lemma BootstrapRaiseEnds(listing: seq<string>, n: nat, isDir: string -> bool, known: string, lib: FaceLibrary)
    requires n <= |listing| && AddAll([], FM.NonDirs(listing[..n], isDir), known, lib).Raise?
    ensures Bootstrap(listing, isDir, known, lib) == AddAll([], FM.NonDirs(listing[..n], isDir), known, lib)
  {
    FM.NonDirsAppend(listing[..n], listing[n..], isDir);
    assert listing[..n] + listing[n..] == listing;
    AddAllRaiseSticky([], FM.NonDirs(listing[..n], isDir), FM.NonDirs(listing[n..], isDir), known, lib);
  }

  /** An exception at position `n` ends the additions. */
  lemma AddAllRaiseEnds(d: EncodingDict, names: seq<string>, n: nat, known: string, lib: FaceLibrary)
    requires n <= |names| && AddAll(d, names[..n], known, lib).Raise?
    ensures AddAll(d, names, known, lib) == AddAll(d, names[..n], known, lib)
  {
    assert names[..n] + names[n..] == names;
    AddAllRaiseSticky(d, names[..n], names[n..], known, lib);
  }

  /** An exception at position `n` ends the deletions. */
  lemma DropAllRaiseEnds(d: EncodingDict, names: seq<string>, n: nat)
    requires Valid(d) && n <= |names| && DropAll(d, names[..n]).Raise?
    ensures DropAll(d, names) == DropAll(d, names[..n])
  {
    assert names[..n] + names[n..] == names;
    DropAllRaiseSticky(d, names[..n], names[n..]);
  }

  /** One pass of the loop bodies of lines 171-175 and 229-235. */
  method AddEncoding(d: EncodingDict, f: string, known: string, lib: FaceLibrary) returns (r: Result<EncodingDict>)
    ensures r == AddFile(d, f, known, lib)
  {
    if !IsCompatible(f) {
      return Ok(d);
    }
    var encs := lib.fileEncodings(known + f);
    if |encs| == 0 {
      return Raise(IndexError);
    }
    r := Ok(Set(d, Stem(f), encs[0]));
  }

  /** One pass of the loop body of lines 243-248. */
  method DropEncoding(d: EncodingDict, f: string) returns (r: Result<EncodingDict>)
    requires Valid(d)
    ensures r == DropFile(d, f)
  {
    if !IsCompatible(f) {
      return Ok(d);
    }
    if !HasKey(d, Stem(f)) {
      return Raise(KeyError);
    }
    r := Ok(Remove(d, Stem(f)));
  }

  /** The bootstrap loop of lines 170-175. */
  method BuildEncodings(fs: FM.FileSystem, lib: FaceLibrary, known: string) returns (r: Result<EncodingDict>)
    ensures r == Bootstrap(fs.listDir(known), fs.isDir, known, lib)
  {
    var listing := fs.listDir(known);
    var d: EncodingDict := [];
    var i := 0;
    while i < |listing|
      invariant 0 <= i <= |listing|
      invariant AddAll([], FM.NonDirs(listing[..i], fs.isDir), known, lib) == Ok(d)
    {
      var f := listing[i];
      BootstrapStep(listing, i, fs.isDir, known, lib);
      if fs.isDir(f) {
        i := i + 1;
        continue;
      }
      var step := AddEncoding(d, f, known, lib);
      if step.Raise? {
        BootstrapRaiseEnds(listing, i + 1, fs.isDir, known, lib);
        return step;
      }
      d := step.value;
      i := i + 1;
    }
    assert listing[..i] == listing;
    r := Ok(d);
  }

  /** The `new` loop of lines 227-235: insert or overwrite in place. */
  method AddEncodings(d0: EncodingDict, names: seq<string>, known: string, lib: FaceLibrary) returns (r: Result<EncodingDict>)
    ensures r == AddAll(d0, names, known, lib)
  {
    var d := d0;
    var i := 0;
    while i < |names|
      invariant 0 <= i <= |names|
      invariant AddAll(d0, names[..i], known, lib) == Ok(d)
    {
      assert names[..i + 1][..i] == names[..i];
      var step := AddEncoding(d, names[i], known, lib);
      if step.Raise? {
        AddAllRaiseEnds(d0, names, i + 1, known, lib);
        return step;
      }
      d := step.value;
      i := i + 1;
    }
    assert names[..i] == names;
    r := Ok(d);
  }

  /** The `deleted` loop of lines 242-248: pop each stem. */
  method DropEncodings(d0: EncodingDict, names: seq<string>) returns (r: Result<EncodingDict>)
    requires Valid(d0)
    ensures r == DropAll(d0, names)
  {
    var d := d0;
    var i := 0;
    while i < |names|
      invariant 0 <= i <= |names|
      invariant DropAll(d0, names[..i]) == Ok(d)
      invariant Valid(d)
    {
      assert names[..i + 1][..i] == names[..i];
      var step := DropEncoding(d, names[i]);
      if step.Raise? {
        DropAllRaiseEnds(d0, names, i + 1);
        return step;
      }
      d := step.value;
      i := i + 1;
    }
    assert names[..i] == names;
    r := Ok(d);
  }
}
