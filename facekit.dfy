/**
 * What facekit_reina.py shares between its flows: the compatible formats,
 * the face boxes, and the face_recognition library taken as given functions.
 */
module Facekit {
  import opened PosixPath

  /** A face descriptor (a numpy vector of floats). */
  type Encoding = seq<real>

  /** One tuple of `face_locations`, read as (y1, x1, y2, x2). */
  datatype Location = Location(y1: int, x1: int, y2: int, x2: int)

  /** A box as the source stores it: `[xmin, xmax, ymin, ymax]`. */
  datatype Rect = Rect(xmin: int, xmax: int, ymin: int, ymax: int)

  /**
   * The face_recognition calls, as they answer during one run.
   * `cropEncodings(path, box)` is `face_encodings` of the image at `path`
   * cut to `image[ymin:ymax, xmin:xmax]`.
   */
  datatype FaceLibrary = FaceLibrary(
    fileEncodings: string -> seq<Encoding>,         // face_encodings(load_image_file(path))
    fileLocations: string -> seq<Location>,         // face_locations(load_image_file(path))
    cropEncodings: (string, Rect) -> seq<Encoding>, // face_encodings(cropped image)
    distance: (Encoding, Encoding) -> real)         // face_distance([known], probe)[0]

  /** `compatible_formats` */
  const CompatibleFormats: seq<string> := [".jpg", ".jpeg", ".gif", ".png"]

  /** `os.path.splitext(name)[1] in compatible_formats`: an exact, case-sensitive test. */
  predicate IsCompatible(name: string) {
    Ext(name) in CompatibleFormats
  }

  /** Upper-case extensions and names that are all extension are rejected. */
  lemma CompatibilityExamples()
    ensures IsCompatible("alice.jpg") && IsCompatible("a.b.png")
    ensures !IsCompatible(".jpg") && !IsCompatible("..jpg") && !IsCompatible("README")
  {
    SplitExtSimple();
    SplitExtLastDotWins();
    SplitExtNoDot();
    SplitExtOnlyLeadingDots();
    RFindIs(".jpg", '/', -1);
    RFindIs(".jpg", '.', 0);
  }

  /** The test is case-sensitive. */
  lemma UpperCaseIsIncompatible()
    ensures !IsCompatible("alice.JPG")
  {
    RFindIs("alice.JPG", '/', -1);
    RFindIs("alice.JPG", '.', 5);
    assert "alice.JPG"[0] != '.';
    assert Ext("alice.JPG") == "alice.JPG"[5..] == ".JPG";
  }

  /** The locate-step box normalisation of lines 73-81 and 309-317. */
  function Normalize(face: Location): (r: Rect)
    ensures r.xmin <= r.xmax && r.ymin <= r.ymax
    ensures {r.xmin, r.xmax} == {face.x1, face.x2}
    ensures {r.ymin, r.ymax} == {face.y1, face.y2}
  {
    Rect(Min(face.x1, face.x2), Max(face.x1, face.x2), Min(face.y1, face.y2), Max(face.y1, face.y2))
  }

  function Min(a: int, b: int): int { if a <= b then a else b }
  function Max(a: int, b: int): int { if a <= b then b else a }
}
