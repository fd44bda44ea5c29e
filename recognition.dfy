/**
 * The recognition half of facekit_reina.py: matching one probe face against
 * the known encodings (`face_people_match`), collating every face of an
 * image under the name it matched (`crop_and_recognize`), and the choice of
 * which raw files `start_recognition` annotates.
 */
module Recognition {
  import opened Wrappers
  import opened PyDict
  import opened PosixPath
  import opened Facekit
  import FM = FolderManager
  import EC = EncodingCache

  /** A distance at or below this counts as a match (line 282). */
  const Tolerance: real := 0.4

  /** The starting minimum, and the distance reported with "unknown" (lines 273 and 287). */
  const Sentinel: real := 99999.0

  /** The name reported when nothing matched (lines 274 and 286). */
  const Unknown: string := "unknown"

  /** `[matched_people, min_face_distance]` */
  datatype MatchResult = MatchResult(name: string, distance: real)

  /** The loop variables of lines 273-283. */
  datatype ScanState = ScanState(minDistance: real, matched: string, isMatched: bool)

  // ---------------------------------------------------------------- face_people_match

  /** The distance from the known encoding at position `j` to the probe. */
  function DistanceAt(known: EC.EncodingDict, probe: Encoding, distance: (Encoding, Encoding) -> real, j: nat): real
    requires j < |known|
  {
    distance(known[j].1, probe)
  }

  /**
   * The loop state after visiting the keys of `known` in order: a strictly
   * smaller distance takes over the minimum and the name, and sets the
   * match flag when it is within tolerance; the flag is never cleared.
   */
  function Scan(known: EC.EncodingDict, probe: Encoding, distance: (Encoding, Encoding) -> real): ScanState {
    if known == [] then ScanState(Sentinel, Unknown, false)
    else
      var s := Scan(known[..|known| - 1], probe, distance);
      var d := distance(known[|known| - 1].1, probe);
      if d < s.minDistance then ScanState(d, known[|known| - 1].0, s.isMatched || d <= Tolerance)
      else s
  }

  /**
   * `face_people_match`: no result when the probe image has no face;
   * otherwise the scanned minimum if the flag was set, else ("unknown", 99999).
   */
  function Match(probeEncodings: seq<Encoding>, known: EC.EncodingDict, distance: (Encoding, Encoding) -> real): (r: Option<MatchResult>)
    ensures r.None? <==> probeEncodings == []
  {
    if probeEncodings == [] then None
    else
      var s := Scan(known, probeEncodings[0], distance);
      if s.isMatched then Some(MatchResult(s.matched, s.minDistance))
      else Some(MatchResult(Unknown, Sentinel))
  }

  /** The running minimum is at most the sentinel and at most every distance seen. */
  lemma {:induction false} ScanIsMinimum(known: EC.EncodingDict, probe: Encoding, distance: (Encoding, Encoding) -> real)
    ensures Scan(known, probe, distance).minDistance <= Sentinel
    ensures forall j :: 0 <= j < |known| ==> Scan(known, probe, distance).minDistance <= DistanceAt(known, probe, distance, j)
  {
    if known != [] {
      var p := known[..|known| - 1];
      ScanIsMinimum(p, probe, distance);
      assert forall j :: 0 <= j < |p| ==> DistanceAt(p, probe, distance, j) == DistanceAt(known, probe, distance, j);
    }
  }

  /** Because the minimum only falls, the flag ends set iff the final minimum is within tolerance. */
  lemma {:induction false} ScanMatchedIff(known: EC.EncodingDict, probe: Encoding, distance: (Encoding, Encoding) -> real)
    ensures Scan(known, probe, distance).isMatched <==> Scan(known, probe, distance).minDistance <= Tolerance
  {
    if known != [] {
      ScanMatchedIff(known[..|known| - 1], probe, distance);
    }
  }

  /**
   * Below the sentinel, the minimum belongs to the name it is reported with,
   * and every earlier key is strictly farther: the first key attaining it wins.
   */
  lemma {:induction false} ScanWinner(known: EC.EncodingDict, probe: Encoding, distance: (Encoding, Encoding) -> real)
    ensures var s := Scan(known, probe, distance);
      s.minDistance < Sentinel ==>
        exists k :: 0 <= k < |known| && known[k].0 == s.matched && DistanceAt(known, probe, distance, k) == s.minDistance &&
          forall j :: 0 <= j < k ==> DistanceAt(known, probe, distance, j) > s.minDistance
  {
    if known != [] {
      var n := |known| - 1;
      var p := known[..n];
      var s := Scan(known, probe, distance);
      var d := distance(known[n].1, probe);
      ScanWinner(p, probe, distance);
      assert forall j :: 0 <= j < n ==> DistanceAt(p, probe, distance, j) == DistanceAt(known, probe, distance, j);
      if d < Scan(p, probe, distance).minDistance {
        ScanIsMinimum(p, probe, distance);
        assert known[n].0 == s.matched && DistanceAt(known, probe, distance, n) == s.minDistance;
      } else if s.minDistance < Sentinel {
        var k :| 0 <= k < |p| && p[k].0 == s.matched && DistanceAt(p, probe, distance, k) == s.minDistance &&
          forall j :: 0 <= j < k ==> DistanceAt(p, probe, distance, j) > s.minDistance;
        assert known[k].0 == s.matched && DistanceAt(known, probe, distance, k) == s.minDistance;
      }
    }
  }

  /** With no known encodings, or none within tolerance, the answer is ("unknown", 99999). */
  lemma NothingCloseIsUnknown(probeEncodings: seq<Encoding>, known: EC.EncodingDict, distance: (Encoding, Encoding) -> real)
    requires probeEncodings != []
    requires forall j :: 0 <= j < |known| ==> DistanceAt(known, probeEncodings[0], distance, j) > Tolerance
    ensures Match(probeEncodings, known, distance) == Some(MatchResult(Unknown, Sentinel))
  {
    var probe := probeEncodings[0];
    ScanMatchedIff(known, probe, distance);
    ScanWinner(known, probe, distance);
  }

  /**
   * Otherwise the answer is the first key, in dict order, whose distance is
   * the least of all, together with that distance.
   */
  lemma FirstClosestIsMatched(probeEncodings: seq<Encoding>, known: EC.EncodingDict, distance: (Encoding, Encoding) -> real, k: nat)
    requires probeEncodings != [] && k < |known|
    requires DistanceAt(known, probeEncodings[0], distance, k) <= Tolerance
    requires forall j :: 0 <= j < |known| ==> DistanceAt(known, probeEncodings[0], distance, k) <= DistanceAt(known, probeEncodings[0], distance, j)
    requires forall j :: 0 <= j < k ==> DistanceAt(known, probeEncodings[0], distance, k) < DistanceAt(known, probeEncodings[0], distance, j)
    ensures Match(probeEncodings, known, distance) == Some(MatchResult(known[k].0, DistanceAt(known, probeEncodings[0], distance, k)))
  {
    var probe := probeEncodings[0];
    var s := Scan(known, probe, distance);
    ScanIsMinimum(known, probe, distance);
    ScanMatchedIff(known, probe, distance);
    ScanWinner(known, probe, distance);
    var w :| 0 <= w < |known| && known[w].0 == s.matched && DistanceAt(known, probe, distance, w) == s.minDistance &&
      forall j :: 0 <= j < w ==> DistanceAt(known, probe, distance, j) > s.minDistance;
    if w < k {
      assert false;
    } else if k < w {
      assert false;
    }
  }

  /** Lines 266-289, loop and all. */
  method FacePeopleMatch(probeEncodings: seq<Encoding>, known: EC.EncodingDict, distance: (Encoding, Encoding) -> real)
      returns (r: Option<MatchResult>)
    ensures r.None? <==> probeEncodings == []
    ensures r == Match(probeEncodings, known, distance)
  {
    if |probeEncodings| == 0 {
      return None;
    }
    var probe := probeEncodings[0];
    var minDistance := Sentinel;
    var matched := Unknown;
    var isMatched := false;
    var i := 0;
    while i < |known|
      invariant 0 <= i <= |known|
      invariant ScanState(minDistance, matched, isMatched) == Scan(known[..i], probe, distance)
    {
      assert known[..i + 1][..i] == known[..i];
      var d := distance(known[i].1, probe);
      if d < minDistance {
        minDistance := d;
        matched := known[i].0;
        if minDistance <= Tolerance {
          isMatched := true;
        }
      }
      i := i + 1;
    }
    assert known[..i] == known;
    if !isMatched {
      matched := Unknown;
      minDistance := Sentinel;
    }
    r := Some(MatchResult(matched, minDistance));
  }

  // ---------------------------------------------------------------- crop_and_recognize

  /** What `crop_and_recognize` stores for a name: the box and the distance. */
  type Annotations = Dict<(Rect, real)>

  /** The match of one face of `file`: its box cut out and handed to `face_people_match`. */
  function FaceMatch(file: string, face: Location, known: EC.EncodingDict, lib: FaceLibrary): Option<MatchResult> {
    Match(lib.cropEncodings(file, Normalize(face)), known, lib.distance)
  }

  /** Lines 309-325: each matched face assigned under its name, skipped when it has no face. */
  function Collate(file: string, faces: seq<Location>, known: EC.EncodingDict, lib: FaceLibrary): (r: Annotations)
    ensures Valid(r)
  {
    if faces == [] then []
    else
      var acc := Collate(file, faces[..|faces| - 1], known, lib);
      var face := faces[|faces| - 1];
      match FaceMatch(file, face, known, lib)
      case None => acc
      case Some(m) => Set(acc, m.name, (Normalize(face), m.distance))
  }

  /** `crop_and_recognize(file, known)`: None when no face is located, else the collation. */
  function CropAndRecognizeOf(file: string, known: EC.EncodingDict, lib: FaceLibrary): (r: Option<Annotations>)
    ensures r.None? <==> lib.fileLocations(file) == []
  {
    var faces := lib.fileLocations(file);
    if faces == [] then None else Some(Collate(file, faces, known, lib))
  }

  /** The names collated are exactly the names some face matched (possibly none, possibly "unknown"). */
  lemma {:induction false} CollateKeys(file: string, faces: seq<Location>, known: EC.EncodingDict, lib: FaceLibrary, name: string)
    ensures HasKey(Collate(file, faces, known, lib), name) <==>
              exists i :: 0 <= i < |faces| && FaceMatch(file, faces[i], known, lib).Some? && FaceMatch(file, faces[i], known, lib).value.name == name
  {
    if faces != [] {
      var n := |faces| - 1;
      var p := faces[..n];
      assert forall i :: 0 <= i < n ==> p[i] == faces[i];
      CollateKeys(file, p, known, lib, name);
      var m := FaceMatch(file, faces[n], known, lib);
      assert Collate(file, faces, known, lib) ==
        if m.None? then Collate(file, p, known, lib)
        else Set(Collate(file, p, known, lib), m.value.name, (Normalize(faces[n]), m.value.distance));
    }
  }

  /** Last write wins: a name holds the box and distance of the last face that matched it. */
  lemma {:induction false} CollateLastWriter(file: string, faces: seq<Location>, known: EC.EncodingDict, lib: FaceLibrary, i: nat)
    requires i < |faces| && FaceMatch(file, faces[i], known, lib).Some?
    requires var name := FaceMatch(file, faces[i], known, lib).value.name;
      forall j :: i < j < |faces| ==> FaceMatch(file, faces[j], known, lib).None? || FaceMatch(file, faces[j], known, lib).value.name != name
    ensures var m := FaceMatch(file, faces[i], known, lib).value;
      HasKey(Collate(file, faces, known, lib), m.name) &&
      Get(Collate(file, faces, known, lib), m.name) == (Normalize(faces[i]), m.distance)
  {
    var n := |faces| - 1;
    var p := faces[..n];
    if i < n {
      assert p[i] == faces[i];
      assert forall j :: i < j < n ==> p[j] == faces[j];
      CollateLastWriter(file, p, known, lib, i);
    }
  }

  /** Lines 298-326, loop and all. */
  method CropAndRecognize(file: string, known: EC.EncodingDict, lib: FaceLibrary) returns (r: Option<Annotations>)
    ensures r.None? <==> lib.fileLocations(file) == []
    ensures r == CropAndRecognizeOf(file, known, lib)
  {
    var faces := lib.fileLocations(file);
    if |faces| == 0 {
      return None;
    }
    var acc: Annotations := [];
    var i := 0;
    while i < |faces|
      invariant 0 <= i <= |faces|
      invariant acc == Collate(file, faces[..i], known, lib)
    {
      assert faces[..i + 1][..i] == faces[..i];
      var box := Normalize(faces[i]);
      var m := FacePeopleMatch(lib.cropEncodings(file, box), known, lib.distance);
      if m.Some? {
        acc := Set(acc, m.value.name, (box, m.value.distance));
      }
      i := i + 1;
    }
    assert faces[..i] == faces;
    r := Some(acc);
  }

  // ---------------------------------------------------------------- start_recognition

  /**
   * The raw files `start_recognition` annotates (lines 384-390): those the
   * `isDir` test, asked about the bare name, rejects and whose extension is
   * compatible, in listing order.
   */
  function Targets(listing: seq<string>, isDir: string -> bool): (r: seq<string>)
    ensures forall f :: f in r <==> f in listing && !isDir(f) && IsCompatible(f)
  {
    if listing == [] then []
    else
      var f := listing[|listing| - 1];
      Targets(listing[..|listing| - 1], isDir) + (if !isDir(f) && IsCompatible(f) then [f] else [])
  }

  /** Targets keep their listing order: each one's position maps to a strictly later position for a later one. */
  lemma {:induction false} TargetsInOrder(listing: seq<string>, isDir: string -> bool, a: nat, b: nat)
    requires a < b < |Targets(listing, isDir)|
    ensures exists i, j :: 0 <= i < j < |listing| && listing[i] == Targets(listing, isDir)[a] && listing[j] == Targets(listing, isDir)[b]
  {
    var n := |listing| - 1;
    var p := listing[..n];
    var t := Targets(p, isDir);
    if b < |t| {
      TargetsInOrder(p, isDir, a, b);
      var i, j :| 0 <= i < j < |p| && p[i] == t[a] && p[j] == t[b];
      assert listing[i] == p[i] && listing[j] == p[j];
    } else {
      assert t[a] in p;
      var i :| 0 <= i < |p| && p[i] == t[a];
      assert listing[i] == t[a] && listing[n] == Targets(listing, isDir)[b];
    }
  }

  /** `os.path.split(p)[1]`: what follows the last '/'. */
  function Tail(p: string): string {
    p[RFind(p, '/') + 1..]
  }

  /** The tail of a path holds no '/'. */
  lemma TailHasNoSlash(p: string)
    ensures '/' !in Tail(p)
  {
    var sep := RFind(p, '/');
    RFindLast(p, '/');
    forall j | 0 <= j < |Tail(p)| ensures Tail(p)[j] != '/' {
      assert Tail(p)[j] == p[sep + 1 + j];
    }
  }

  /** A raw folder given with its trailing '/' gives every output the name of its input. */
  lemma TailOfJoin(folder: string, name: string)
    requires folder != [] && folder[|folder| - 1] == '/' && '/' !in name
    ensures Tail(folder + name) == name
  {
    var p := folder + name;
    RFindIs(p, '/', |folder| - 1);
    assert p[|folder|..] == name;
  }

  /** One annotated image written by `generate_face_recognition_img`: its path and what is drawn on it. */
  datatype Output = Output(path: string, annotations: Option<Annotations>)

  /** The image written for one raw file: into the recognised folder, under the tail of its path. */
  function OutputFor(raw: string, recognized: string, f: string, known: EC.EncodingDict, lib: FaceLibrary): Output {
    Output(recognized + Tail(raw + f), CropAndRecognizeOf(raw + f, known, lib))
  }

  /** The images written for the targets, in order. */
  function Outputs(raw: string, recognized: string, targets: seq<string>, known: EC.EncodingDict, lib: FaceLibrary): (r: seq<Output>)
    ensures |r| == |targets|
    ensures forall i :: 0 <= i < |targets| ==> r[i] == OutputFor(raw, recognized, targets[i], known, lib)
  {
    if targets == [] then []
    else Outputs(raw, recognized, targets[..|targets| - 1], known, lib) + [OutputFor(raw, recognized, targets[|targets| - 1], known, lib)]
  }

  /** One more name of the raw listing: the step the loop of lines 384-392 takes. */
  lemma TargetsStep(raw: string, recognized: string, listing: seq<string>, i: nat, isDir: string -> bool, known: EC.EncodingDict, lib: FaceLibrary)
    requires i < |listing|
    ensures var before := Outputs(raw, recognized, Targets(listing[..i], isDir), known, lib);
      var f := listing[i];
      Outputs(raw, recognized, Targets(listing[..i + 1], isDir), known, lib) ==
        if isDir(f) || !IsCompatible(f) then before else before + [OutputFor(raw, recognized, f, known, lib)]
  {
    assert listing[..i + 1][..i] == listing[..i];
    var t := Targets(listing[..i], isDir);
    var f := listing[i];
    if isDir(f) || !IsCompatible(f) {
      assert Targets(listing[..i + 1], isDir) == t + [];
      assert t + [] == t;
    } else {
      assert Targets(listing[..i + 1], isDir) == t + [f];
      assert (t + [f])[..|t|] == t;
    }
  }

  /**
   * `start_recognition(raw, recognized, known)` (lines 372-394): bring the
   * encoding cache up to date, which may raise, then annotate every target.
   */
  method StartRecognition(cache: EC.KnownCache, fs: FM.FileSystem, lib: FaceLibrary, raw: string, recognized: string, known: string)
      returns (r: Result<seq<Output>>)
    requires cache.Valid()
    modifies cache, cache.modate
    ensures cache.Valid()
    ensures var run := EC.GenSav(old(cache.encoding), old(cache.modate.content), fs, lib, known);
      && cache.encoding == run.encoding && cache.modate.content == run.modate
      && r == match run.returned
              case Raise(e) => Raise(e)
              case Ok(d) => Ok(Outputs(raw, recognized, Targets(fs.listDir(raw), fs.isDir), d, lib))
  {
    var d := cache.GenSavEncodingsDict(fs, lib, known);
    if d.Raise? {
      return Raise(d.error);
    }
    var written := AnnotateAll(raw, recognized, fs.listDir(raw), fs.isDir, d.value, lib);
    r := Ok(written);
  }

  /** The loop of lines 384-392 over the raw listing. */
  method AnnotateAll(raw: string, recognized: string, listing: seq<string>, isDir: string -> bool, known: EC.EncodingDict, lib: FaceLibrary)
      returns (written: seq<Output>)
    ensures written == Outputs(raw, recognized, Targets(listing, isDir), known, lib)
  {
    written := [];
    var i := 0;
    while i < |listing|
      invariant 0 <= i <= |listing|
      invariant written == Outputs(raw, recognized, Targets(listing[..i], isDir), known, lib)
    {
      TargetsStep(raw, recognized, listing, i, isDir, known, lib);
      var f := listing[i];
      if isDir(f) || !IsCompatible(f) {
        i := i + 1;
        continue;
      }
      var annotations := CropAndRecognize(raw + f, known, lib);
      written := written + [Output(recognized + Tail(raw + f), annotations)];
      i := i + 1;
    }
    assert listing[..i] == listing;
  }
}
