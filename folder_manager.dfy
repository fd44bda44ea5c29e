/**
 * The folder snapshot of folder_manager_reina.py: a dict from file name to
 * modification time, and the diff of last run's snapshot against this run's.
 */
module FolderManager {
  import opened Wrappers
  import opened PyDict

  /** file name -> `os.path.getmtime(folder + name)`, in listing order. */
  type Snapshot = Dict<real>

  /** The operating-system calls, as they answer during one run. */
  datatype FileSystem = FileSystem(
    listDir: string -> seq<string>,   // os.listdir(path)
    isDir: string -> bool,            // os.path.isdir(path), relative to the working directory
    getMtime: string -> real)         // os.path.getmtime(path)

  /** No name twice, as `os.listdir` guarantees. */
  predicate Distinct(names: seq<string>) {
    forall i, j :: 0 <= i < j < |names| ==> names[i] != names[j]
  }

  // ---------------------------------------------------------------- parse_modate

  /** The names of a listing that `isDir` does not call directories, in listing order. */
  function NonDirs(names: seq<string>, isDir: string -> bool): seq<string> {
    if names == [] then []
    else
      var n := |names| - 1;
      NonDirs(names[..n], isDir) + (if isDir(names[n]) then [] else [names[n]])
  }

  /** The names kept are exactly the listed names that are not directories, none of them twice. */
  lemma {:induction false} NonDirsMembers(names: seq<string>, isDir: string -> bool)
    ensures forall f :: f in NonDirs(names, isDir) <==> f in names && !isDir(f)
    ensures Distinct(names) ==> Distinct(NonDirs(names, isDir))
  {
    if names != [] {
      var n := |names| - 1;
      assert names == names[..n] + [names[n]];
      NonDirsMembers(names[..n], isDir);
    }
  }

  /** Filtering one more name of the listing. */
  lemma NonDirsStep(names: seq<string>, i: nat, isDir: string -> bool)
    requires i < |names|
    ensures NonDirs(names[..i + 1], isDir) == NonDirs(names[..i], isDir) + (if isDir(names[i]) then [] else [names[i]])
  {
    assert names[..i + 1][..i] == names[..i];
  }

  /** Filtering a listing in two parts. */
  lemma {:induction false} NonDirsAppend(a: seq<string>, b: seq<string>, isDir: string -> bool)
    ensures NonDirs(a + b, isDir) == NonDirs(a, isDir) + NonDirs(b, isDir)
    decreases |b|
  {
    if b == [] {
      assert a + b == a;
    } else {
      var c := a + b;
      assert c[..|c| - 1] == a + b[..|b| - 1];
      assert c[|c| - 1] == b[|b| - 1];
      NonDirsAppend(a, b[..|b| - 1], isDir);
    }
  }

  /** The dict that assigning `d[name] = getMtime(folder + name)` for each name in turn builds. */
  function Record(folder: string, names: seq<string>, getMtime: string -> real): (s: Snapshot)
    ensures Valid(s)
    ensures forall f :: HasKey(s, f) <==> f in names
    ensures forall f :: HasKey(s, f) ==> Get(s, f) == getMtime(folder + f)
  {
    if names == [] then []
    else
      var n := |names| - 1;
      assert names == names[..n] + [names[n]];
      Set(Record(folder, names[..n], getMtime), names[n], getMtime(folder + names[n]))
  }

  /** Assigning one more name. */
  lemma RecordStep(folder: string, names: seq<string>, j: nat, getMtime: string -> real)
    requires j < |names|
    ensures Record(folder, names[..j + 1], getMtime) == Set(Record(folder, names[..j], getMtime), names[j], getMtime(folder + names[j]))
  {
    assert names[..j + 1][..j] == names[..j];
  }

  /** What `parse_modate(folder)` returns. */
  function ModateOf(fs: FileSystem, folder: string): Snapshot {
    Record(folder, NonDirs(fs.listDir(folder), fs.isDir), fs.getMtime)
  }

  /** Without repeated names, the keys are exactly the names, in order. */
  lemma {:induction false} RecordKeys(folder: string, names: seq<string>, getMtime: string -> real)
    requires Distinct(names)
    ensures Keys(Record(folder, names, getMtime)) == names
  {
    if names != [] {
      var n := |names| - 1;
      assert names == names[..n] + [names[n]];
      RecordKeys(folder, names[..n], getMtime);
      assert names[n] !in names[..n];
    }
  }

  /**
   * The snapshot's keys are the listed names that are not directories, in
   * listing order; `isDir` is asked about the bare name, `getMtime` about
   * folder + name.
   */
  lemma ModateKeys(fs: FileSystem, folder: string)
    requires Distinct(fs.listDir(folder))
    ensures Keys(ModateOf(fs, folder)) == NonDirs(fs.listDir(folder), fs.isDir)
    ensures forall f :: HasKey(ModateOf(fs, folder), f) ==> Get(ModateOf(fs, folder), f) == fs.getMtime(folder + f)
  {
    NonDirsMembers(fs.listDir(folder), fs.isDir);
    RecordKeys(folder, NonDirs(fs.listDir(folder), fs.isDir), fs.getMtime);
  }

  /** `parse_modate`: filter the listing, then fill the dict. */
  method ParseModate(fs: FileSystem, folder: string) returns (m: Snapshot)
    ensures m == ModateOf(fs, folder)
  {
    var listing := fs.listDir(folder);
    var files: seq<string> := [];
    var i := 0;
    while i < |listing|
      invariant 0 <= i <= |listing|
      invariant files == NonDirs(listing[..i], fs.isDir)
    {
      NonDirsStep(listing, i, fs.isDir);
      if !fs.isDir(listing[i]) {
        files := files + [listing[i]];
      }
      i := i + 1;
    }
    assert listing[..i] == listing;
    m := [];
    var j := 0;
    while j < |files|
      invariant 0 <= j <= |files|
      invariant m == Record(folder, files[..j], fs.getMtime)
    {
      RecordStep(folder, files, j, fs.getMtime);
      m := Set(m, files[j], fs.getMtime(folder + files[j]));
      j := j + 1;
    }
    assert files[..j] == files;
  }

  // ---------------------------------------------------------------- get_change_and_renew

  /** What the snapshot file holds. */
  datatype SnapshotFile =
    | Missing                     // the file does not exist
    | Empty                       // an empty file (as line 47 creates it)
    | Null                        // the JSON text `null`
    | Stored(snapshot: Snapshot)  // a JSON object

  /** `(is_changed, change)`: the flag and the lists `change['new']` (added) and `change['deleted']`. */
  datatype Change = Change(isChanged: bool, added: seq<string>, deleted: seq<string>)

  /**
   * Lines 45-53: the old snapshot as `json.loads` returns it. A missing file
   * is created empty first, and the empty text is not JSON.
   */
  function Load(f: SnapshotFile): (r: Result<Option<Snapshot>>)
    ensures r.Raise? <==> f.Missing? || f.Empty?
    ensures r.Raise? ==> r.error == JsonDecodeError
    ensures r.Ok? ==> (r.value.None? <==> f.Null?)
    ensures r.Ok? && r.value.Some? ==> f == Stored(r.value.value)
  {
    match f
    case Missing => Raise(JsonDecodeError)
    case Empty => Raise(JsonDecodeError)
    case Null => Ok(None)
    case Stored(s) => Ok(Some(s))
  }

  /** The current entry has the same key and time in the old snapshot (`is_new` is set to False). */
  predicate Unchanged(prev: Snapshot, e: (string, real)) {
    HasKey(prev, e.0) && Get(prev, e.0) == e.1
  }

  /** `change['new']` after the first loop: the current keys whose entry is not unchanged. */
  function NewNames(prev: Snapshot, cur: Snapshot): seq<string> {
    if cur == [] then []
    else
      var n := |cur| - 1;
      NewNames(prev, cur[..n]) + (if Unchanged(prev, cur[n]) then [] else [cur[n].0])
  }

  /** Position of the first of `ks` that is not a key of `cur`, or |ks| if there is none. */
  function FirstMissing(ks: seq<string>, cur: Snapshot): (m: nat)
    ensures m <= |ks|
    ensures forall j :: 0 <= j < m ==> HasKey(cur, ks[j])
    ensures m < |ks| ==> !HasKey(cur, ks[m])
  {
    if ks == [] then 0
    else if !HasKey(cur, ks[0]) then 0
    else 1 + FirstMissing(ks[1..], cur)
  }

  /**
   * Lines 62-108 once the old snapshot is loaded: `None` (JSON null) makes
   * every current key new; otherwise the two loops run, and reading `is_new`
   * at line 99 raises when the first loop never ran.
   */
  function Diff(prev: Option<Snapshot>, cur: Snapshot): Result<Change> {
    match prev
    case None => Ok(Change(true, Keys(cur), []))
    case Some(o) =>
      if cur == [] then Raise(UnboundLocalError)
      else
        var ks := Keys(o);
        var m := FirstMissing(ks, cur);
        Ok(Change(!Unchanged(o, cur[|cur| - 1]) || m < |ks|, NewNames(o, cur), ks[m..]))
  }

  /** The file's content after `get_change_and_renew` with current snapshot `cur`. */
  function RenewedFile(f: SnapshotFile, cur: Snapshot): SnapshotFile {
    if f.Missing? || f.Empty? then Empty else Stored(cur)
  }

  /** What `get_change_and_renew` returns or raises, given the file's content before the call. */
  function ChangeReport(f: SnapshotFile, cur: Snapshot): Result<Change> {
    match Load(f)
    case Raise(e) => Raise(e)
    case Ok(o) => Diff(o, cur)
  }

  // ---------------------------------------------------------------- properties of the diff

  /**
   * A current name is in `change['new']` iff the old snapshot lacks it or
   * records another time for it; the list keeps the current snapshot's order.
   */
  lemma {:induction false} NewNamesMembers(prev: Snapshot, cur: Snapshot)
    requires Valid(cur)
    ensures forall k :: k in NewNames(prev, cur) <==>
              HasKey(cur, k) && (!HasKey(prev, k) || Get(prev, k) != Get(cur, k))
    ensures forall a, b :: 0 <= a < b < |NewNames(prev, cur)| ==>
              IndexOf(cur, NewNames(prev, cur)[a]) < IndexOf(cur, NewNames(prev, cur)[b])
  {
    if cur != [] {
      var n := |cur| - 1;
      var p, x := cur[..n], cur[n];
      assert Valid(p);
      NewNamesMembers(prev, p);
      assert Keys(cur) == Keys(p) + [x.0];
      IndexOfIs(cur, x.0, n);
      forall k | HasKey(p, k) ensures Get(cur, k) == Get(p, k) && IndexOf(cur, k) == IndexOf(p, k) < n {
        PrefixIndexOf(cur, n, k);
      }
    }
  }

  /** Diffed against itself, no entry of a prefix of a snapshot is new. */
  lemma {:induction false} NewNamesAgainstItself(s: Snapshot, n: nat)
    requires Valid(s) && n <= |s|
    ensures NewNames(s, s[..n]) == []
  {
    if n > 0 {
      assert s[..n][..n - 1] == s[..n - 1];
      NewNamesAgainstItself(s, n - 1);
      GetAt(s, n - 1);
    }
  }

  /** When every key is still present, nothing is missing. */
  lemma {:induction false} FirstMissingNone(ks: seq<string>, cur: Snapshot)
    requires forall k :: k in ks ==> HasKey(cur, k)
    ensures FirstMissing(ks, cur) == |ks|
  {
    if ks != [] {
      assert ks[0] in ks;
      FirstMissingNone(ks[1..], cur);
    }
  }

  /** Idempotence: diffing a non-empty snapshot against itself reports nothing. */
  lemma UnchangedFolderReportsNothing(s: Snapshot)
    requires Valid(s) && s != []
    ensures Diff(Some(s), s) == Ok(Change(false, [], []))
  {
    NewNamesAgainstItself(s, |s|);
    assert s[..|s|] == s;
    GetAt(s, |s| - 1);
    FirstMissingNone(Keys(s), s);
    assert Unchanged(s, s[|s| - 1]);
    assert NewNames(s, s) == [];
    assert Keys(s)[|s|..] == [];
  }

  /**
   * `change['deleted']` is the suffix of the old keys that starts at the
   * first old key missing now; it is empty iff no old key is missing.
   */
  lemma DeletedIsStickySuffix(prev: Snapshot, cur: Snapshot, c: Change)
    requires Diff(Some(prev), cur) == Ok(c)
    ensures exists m :: 0 <= m <= |prev| && c.deleted == Keys(prev)[m..]
              && (forall j :: 0 <= j < m ==> HasKey(cur, prev[j].0))
              && (m < |prev| ==> !HasKey(cur, prev[m].0))
    ensures c.deleted == [] <==> forall k :: k in Keys(prev) ==> HasKey(cur, k)
  {
    var m := FirstMissing(Keys(prev), cur);
    assert c.deleted == Keys(prev)[m..];
  }

  /**
   * `is_changed` sees only the `is_new` of the last current key, or'ed with
   * whether any old key is missing.
   */
  lemma IsChangedSeesLastKeyOnly(prev: Snapshot, cur: Snapshot, c: Change)
    requires Diff(Some(prev), cur) == Ok(c)
    ensures cur != []
    ensures c.isChanged <==>
              !Unchanged(prev, cur[|cur| - 1]) || exists k :: k in Keys(prev) && !HasKey(cur, k)
  {
    var m := FirstMissing(Keys(prev), cur);
    if m < |prev| {
      assert Keys(prev)[m] in Keys(prev);
    }
  }

  /**
   * JSON `null` makes every current name new and nothing deleted; a present
   * old snapshot with an empty listing raises when `is_new` is read.
   */
  lemma DiffOutcomes(prev: Option<Snapshot>, cur: Snapshot)
    ensures Diff(prev, cur).Raise? <==> prev.Some? && cur == []
    ensures Diff(prev, cur).Raise? ==> Diff(prev, cur).error == UnboundLocalError
    ensures prev.None? ==> Diff(prev, cur) == Ok(Change(true, Keys(cur), []))
  {
  }

  /** An addition followed by an unchanged last key is not reported as a change. */
  lemma EarlierAdditionNotReported()
    ensures Diff(Some([("a.jpg", 1.0)]), [("b.jpg", 2.0), ("a.jpg", 1.0)])
              == Ok(Change(false, ["b.jpg"], []))
  {
    var prev: Snapshot := [("a.jpg", 1.0)];
    var cur: Snapshot := [("b.jpg", 2.0), ("a.jpg", 1.0)];
    var ks := Keys(prev);
    assert ks == ["a.jpg"];
    assert Keys(cur) == ["b.jpg", "a.jpg"];
    assert "a.jpg" != "b.jpg" by { assert "a.jpg"[0] != "b.jpg"[0]; }
    assert !HasKey(prev, "b.jpg");
    IndexOfIs(prev, "a.jpg", 0);
    assert Unchanged(prev, cur[1]) && !Unchanged(prev, cur[0]);
    assert cur[..1] == [("b.jpg", 2.0)] && cur[..1][..0] == [];
    assert NewNames(prev, cur[..1]) == ["b.jpg"];
    assert NewNames(prev, cur) == ["b.jpg"];
    assert HasKey(cur, "a.jpg");
    assert FirstMissing(ks[1..], cur) == 0;
    assert FirstMissing(ks, cur) == 1;
    assert ks[1..] == [];
  }

  /** The sticky flag reports a re-timed file after a deleted one as deleted too: `new` and `deleted` overlap. */
  lemma DeletedMayOverlapAdded()
    ensures Diff(Some([("a.jpg", 1.0), ("b.jpg", 2.0)]), [("b.jpg", 3.0)])
              == Ok(Change(true, ["b.jpg"], ["a.jpg", "b.jpg"]))
  {
    var prev: Snapshot := [("a.jpg", 1.0), ("b.jpg", 2.0)];
    var cur: Snapshot := [("b.jpg", 3.0)];
    var ks := Keys(prev);
    assert ks == ["a.jpg", "b.jpg"];
    assert Keys(cur) == ["b.jpg"];
    assert "a.jpg" != "b.jpg" by { assert "a.jpg"[0] != "b.jpg"[0]; }
    assert !HasKey(cur, "a.jpg");
    assert FirstMissing(ks, cur) == 0;
    IndexOfIs(prev, "b.jpg", 1);
    assert !Unchanged(prev, cur[0]);
    assert NewNames(prev, cur[..0]) == [];
    assert NewNames(prev, cur) == ["b.jpg"];
    assert ks[0..] == ks;
  }

  /** The sticky flag reports an unchanged file after a deleted one as deleted. */
  lemma DeletedMayListUnchanged()
    ensures Diff(Some([("a.jpg", 1.0), ("b.jpg", 2.0)]), [("b.jpg", 2.0)])
              == Ok(Change(true, [], ["a.jpg", "b.jpg"]))
  {
    var prev: Snapshot := [("a.jpg", 1.0), ("b.jpg", 2.0)];
    var cur: Snapshot := [("b.jpg", 2.0)];
    var ks := Keys(prev);
    assert ks == ["a.jpg", "b.jpg"];
    assert Keys(cur) == ["b.jpg"];
    assert "a.jpg" != "b.jpg" by { assert "a.jpg"[0] != "b.jpg"[0]; }
    assert !HasKey(cur, "a.jpg");
    assert FirstMissing(ks, cur) == 0;
    IndexOfIs(prev, "b.jpg", 1);
    assert Unchanged(prev, cur[0]);
    assert NewNames(prev, cur[..0]) == [];
    assert NewNames(prev, cur) == [];
    assert ks[0..] == ks;
  }

  /**
   * The first loop (lines 66-81): `change['new']` and the value `is_new`
   * is left with, None when the loop never ran and `is_new` is unbound.
   */
  method FindNew(prev: Snapshot, cur: Snapshot) returns (newNames: seq<string>, isNew: Option<bool>)
    requires Valid(cur)
    ensures newNames == NewNames(prev, cur)
    ensures isNew == if cur == [] then None else Some(!Unchanged(prev, cur[|cur| - 1]))
  {
    newNames, isNew := [], None;
    var i := 0;
    while i < |cur|
      invariant 0 <= i <= |cur|
      invariant newNames == NewNames(prev, cur[..i])
      invariant isNew == if i == 0 then None else Some(!Unchanged(prev, cur[i - 1]))
    {
      assert cur[..i + 1][..i] == cur[..i];
      var k := Keys(cur)[i];
      GetAt(cur, i);
      var b := true;
      if HasKey(prev, k) {
        if Get(cur, k) == Get(prev, k) {
          b := false;
        }
      }
      isNew := Some(b);
      if b {
        newNames := newNames + [k];
      }
      i := i + 1;
    }
    assert cur[..i] == cur;
  }

  /**
   * The second loop (lines 85-95): `is_deleted` is set once and never reset,
   * so every old key from the first missing one on is appended.
   */
  method FindDeleted(prev: Snapshot, cur: Snapshot) returns (deleted: seq<string>, isDeleted: bool)
    ensures isDeleted <==> FirstMissing(Keys(prev), cur) < |prev|
    ensures deleted == Keys(prev)[FirstMissing(Keys(prev), cur)..]
  {
    var ks := Keys(prev);
    deleted, isDeleted := [], false;
    var j := 0;
    while j < |ks|
      invariant 0 <= j <= |ks|
      invariant isDeleted <==> FirstMissing(ks, cur) < j
      invariant deleted == if isDeleted then ks[FirstMissing(ks, cur)..j] else []
    {
      if !HasKey(cur, ks[j]) {
        isDeleted := true;
      }
      if isDeleted {
        deleted := deleted + [ks[j]];
      }
      j := j + 1;
    }
  }

  /**
   * Lines 60-111 once the old snapshot is loaded: every current key is new
   * after JSON null; otherwise the two loops run and their flags combine.
   */
  method FindOutChange(prev: Option<Snapshot>, cur: Snapshot) returns (r: Result<Change>)
    requires Valid(cur)
    ensures r == Diff(prev, cur)
  {
    match prev {
      case None =>
        r := Ok(Change(true, Keys(cur), []));
      case Some(o) =>
        var newNames, isNew := FindNew(o, cur);
        var deleted, isDeleted := FindDeleted(o, cur);
        if isNew.None? {
          return Raise(UnboundLocalError);
        }
        r := Ok(Change(isNew.value || isDeleted, newNames, deleted));
    }
  }

  /** The file holding the last snapshot of one folder. */
  class ModateFile {
    var content: SnapshotFile

    constructor (initial: SnapshotFile)
      ensures content == initial
    {
      content := initial;
    }

    /** `save_dict(snapshot, path)`: overwrite the file with the JSON object. */
    method SaveDict(s: Snapshot)
      modifies this
      ensures content == Stored(s)
    {
      content := Stored(s);
    }

    /**
     * `get_change_and_renew(folder, path)`. The file is created empty when
     * missing; once the old snapshot has been read the fresh one is saved
     * before any diffing, whether or not anything changed.
     */
    method GetChangeAndRenew(fs: FileSystem, folder: string) returns (r: Result<Change>)
      modifies this
      ensures content == RenewedFile(old(content), ModateOf(fs, folder))
      ensures content.Stored? ==> content.snapshot == ModateOf(fs, folder)
      ensures r == ChangeReport(old(content), ModateOf(fs, folder))
    {
      if content.Missing? {
        content := Empty;
      }
      var loaded := Load(content);
      if loaded.Raise? {
        return Raise(loaded.error);
      }
      var cur := ParseModate(fs, folder);
      SaveDict(cur);
      r := FindOutChange(loaded.value, cur);
    }
  }

  /**
   * A change the report does not flag is lost for good: the snapshot file
   * already holds the current snapshot, so the next run over the same
   * folder reports nothing either.
   */
  lemma UnreportedChangeIsLost(f: SnapshotFile, cur: Snapshot)
    requires Valid(cur)
    requires ChangeReport(f, cur).Ok? && !ChangeReport(f, cur).value.isChanged
    ensures ChangeReport(RenewedFile(f, cur), cur) == Ok(Change(false, [], []))
  {
    UnchangedFolderReportsNothing(cur);
  }
}
