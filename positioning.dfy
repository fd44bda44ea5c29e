/**
 * The positioning flow of facekit_reina.py (`start_position`, lines
 * 92-148): every compatible raw image gets a copy with its faces boxed in
 * the positioned folder; an image whose copy already exists is only
 * redrawn after the user agrees, with `all` agreeing for the rest of the run.
 */
module Positioning {
  import opened Wrappers
  import opened PosixPath
  import opened Facekit

  /** `str.lower` on the characters the answers are compared against: 'A'-'Z' only. */
  function Lower(s: string): string {
    seq(|s|, i requires 0 <= i < |s| => if 'A' <= s[i] <= 'Z' then (s[i] as int + 32) as char else s[i])
  }

  /** The answers to the overwrite question that end it. */
  datatype Reply = Yes | No | All

  /**
   * The loop of lines 122-134: read answers until one is `y`, `n` or `all`
   * in any case; the reply and the answers left. `input()` with nothing
   * left to read raises EOFError.
   */
  function AskOverwrite(answers: seq<string>): Result<(Reply, seq<string>)>
    decreases |answers|
  {
    if answers == [] then Raise(EofError)
    else
      var a := Lower(answers[0]);
      if a == "y" then Ok((Yes, answers[1..]))
      else if a == "n" then Ok((No, answers[1..]))
      else if a == "all" then Ok((All, answers[1..]))
      else AskOverwrite(answers[1..])
  }

  /**
   * The loop of lines 137-146 ("Show all supported formats?"): read answers
   * until one is `y` or `n` in any case; the answers left.
   */
  function AskShowFormats(answers: seq<string>): Result<seq<string>>
    decreases |answers|
  {
    if answers == [] then Raise(EofError)
    else
      var a := Lower(answers[0]);
      if a == "y" || a == "n" then Ok(answers[1..])
      else AskShowFormats(answers[1..])
  }

  /** One image written by `generate_face_positioned_img`: its name and the boxes drawn on it. */
  datatype Generated = Generated(name: string, boxes: seq<Rect>)

  /**
   * What the flow has done so far: the names present in the positioned
   * folder, the `all_overwrite` flag, the answers not yet read, and the
   * images written, in order.
   */
  datatype Progress = Progress(existing: set<string>, allOverwrite: bool, answers: seq<string>, generated: seq<Generated>)

  /** The names of the images written, in order. */
  function GeneratedNames(gs: seq<Generated>): (r: seq<string>)
    ensures |r| == |gs| && forall i :: 0 <= i < |gs| ==> r[i] == gs[i].name
  {
    seq(|gs|, i requires 0 <= i < |gs| => gs[i].name)
  }

  /** Lines 73-81: every located face of `raw + f`, normalised. */
  function Boxes(faces: seq<Location>): (r: seq<Rect>)
    ensures |r| == |faces| && forall i :: 0 <= i < |faces| ==> r[i] == Normalize(faces[i])
  {
    seq(|faces|, i requires 0 <= i < |faces| => Normalize(faces[i]))
  }

  /** `generate_face_positioned_img(raw, f, positioned)`: the copy of `f` now exists. */
  function Generate(s: Progress, raw: string, f: string, lib: FaceLibrary): Progress {
    s.(existing := s.existing + {f}, generated := s.generated + [Generated(f, Boxes(lib.fileLocations(raw + f)))])
  }

  /**
   * One name of the raw listing (lines 112-146). Here `isDir` is asked
   * about the full path `raw + f`.
   */
  function Step(s: Progress, raw: string, f: string, isDir: string -> bool, lib: FaceLibrary): Result<Progress> {
    if isDir(raw + f) then Ok(s)
    else if IsCompatible(f) then
      if f !in s.existing || s.allOverwrite then Ok(Generate(s, raw, f, lib))
      else
        match AskOverwrite(s.answers)
        case Raise(e) => Raise(e)
        case Ok((reply, rest)) =>
          var s' := s.(answers := rest);
          if reply == No then Ok(s')
          else if reply == Yes then Ok(Generate(s', raw, f, lib))
          else Ok(Generate(s', raw, f, lib).(allOverwrite := true))
    else
      match AskShowFormats(s.answers)
      case Raise(e) => Raise(e)
      case Ok(rest) => Ok(s.(answers := rest))
  }

  /** `Step` for each name in turn, stopping at the first exception. */
  function Steps(s: Progress, raw: string, names: seq<string>, isDir: string -> bool, lib: FaceLibrary): Result<Progress> {
    if names == [] then Ok(s)
    else
      match Steps(s, raw, names[..|names| - 1], isDir, lib)
      case Raise(e) => Raise(e)
      case Ok(s') => Step(s', raw, names[|names| - 1], isDir, lib)
  }

  /**
   * `start_position(raw, positioned)`: the listing of `raw`, the names in
   * the positioned folder at the start (none when it is created), and the
   * lines the user types.
   */
  function StartPositionOf(raw: string, listing: seq<string>, existing: set<string>, answers: seq<string>,
                           isDir: string -> bool, lib: FaceLibrary): Result<Progress> {
    Steps(Progress(existing, false, answers, []), raw, listing, isDir, lib)
  }

  // ---------------------------------------------------------------- answers

  /** An answer is `y` exactly when it is "y" or "Y". */
  lemma LowerIsY(a: string)
    ensures Lower(a) == "y" <==> a == "y" || a == "Y"
  {
    if |a| == 1 && Lower(a) == "y" {
      assert Lower(a)[0] == 'y';
    }
  }

  /** An answer is `all` exactly when it spells "all" in any mix of cases. */
  lemma LowerIsAll(a: string)
    ensures Lower(a) == "all" <==> |a| == 3 && a[0] in "aA" && a[1] in "lL" && a[2] in "lL"
  {
    if |a| == 3 && Lower(a) == "all" {
      assert Lower(a)[0] == 'a' && Lower(a)[1] == 'l' && Lower(a)[2] == 'l';
    }
    if |a| == 3 && a[0] in "aA" && a[1] in "lL" && a[2] in "lL" {
      assert Lower(a) == "all";
    }
  }

  /** An answer that ends the overwrite question. */
  predicate Decisive(a: string) {
    Lower(a) in {"y", "n", "all"}
  }

  /**
   * Any answers other than `y`, `n` and `all` are passed over: the first
   * decisive answer gives the reply, and reading resumes after it.
   */
  lemma {:induction false} OverwriteSkipsOthers(others: seq<string>, a: string, rest: seq<string>)
    requires forall i :: 0 <= i < |others| ==> !Decisive(others[i])
    requires Decisive(a)
    ensures AskOverwrite(others + [a] + rest) ==
              Ok((if Lower(a) == "y" then Yes else if Lower(a) == "n" then No else All, rest))
  {
    if others == [] {
      assert ([] + [a] + rest)[1..] == rest;
    } else {
      assert (others + [a] + rest)[1..] == others[1..] + [a] + rest;
      assert forall i :: 0 <= i < |others[1..]| ==> others[1..][i] == others[i + 1];
      OverwriteSkipsOthers(others[1..], a, rest);
    }
  }

  /** With no decisive answer left to read, the question raises EOFError. */
  lemma {:induction false} OverwriteExhausted(answers: seq<string>)
    requires forall i :: 0 <= i < |answers| ==> !Decisive(answers[i])
    ensures AskOverwrite(answers) == Raise(EofError)
  {
    if answers != [] {
      assert forall i :: 0 <= i < |answers[1..]| ==> answers[1..][i] == answers[i + 1];
      OverwriteExhausted(answers[1..]);
    }
  }

  /** An answer that ends the formats question. */
  predicate ClosesFormats(a: string) {
    Lower(a) == "y" || Lower(a) == "n"
  }

  /**
   * Any answers other than `y` and `n` are passed over by the formats
   * question, and reading resumes after the first `y` or `n`.
   */
  lemma {:induction false} FormatsSkipsOthers(others: seq<string>, a: string, rest: seq<string>)
    requires forall i :: 0 <= i < |others| ==> !ClosesFormats(others[i])
    requires ClosesFormats(a)
    ensures AskShowFormats(others + [a] + rest) == Ok(rest)
  {
    if others == [] {
      assert ([] + [a] + rest)[1..] == rest;
    } else {
      assert (others + [a] + rest)[1..] == others[1..] + [a] + rest;
      assert forall i :: 0 <= i < |others[1..]| ==> others[1..][i] == others[i + 1];
      FormatsSkipsOthers(others[1..], a, rest);
    }
  }

  /** With no `y` or `n` left to read, the formats question raises EOFError. */
  lemma {:induction false} FormatsExhausted(answers: seq<string>)
    requires forall i :: 0 <= i < |answers| ==> !ClosesFormats(answers[i])
    ensures AskShowFormats(answers) == Raise(EofError)
  {
    if answers != [] {
      assert forall i :: 0 <= i < |answers[1..]| ==> answers[1..][i] == answers[i + 1];
      FormatsExhausted(answers[1..]);
    }
  }

  /** The formats question does not know `all`: it is read and the question repeats. */
  lemma FormatsQuestionIgnoresAll(a: string, rest: seq<string>)
    requires Lower(a) == "all"
    ensures AskShowFormats([a] + rest) == AskShowFormats(rest)
  {
    assert ([a] + rest)[1..] == rest;
  }

  // ---------------------------------------------------------------- the flow

  /** A compatible image whose copy is absent is drawn without any question. */
  lemma AbsentCopyIsDrawn(s: Progress, raw: string, f: string, isDir: string -> bool, lib: FaceLibrary)
    requires !isDir(raw + f) && IsCompatible(f) && f !in s.existing
    ensures Step(s, raw, f, isDir, lib).Ok?
    ensures Step(s, raw, f, isDir, lib).value.answers == s.answers
    ensures GeneratedNames(Step(s, raw, f, isDir, lib).value.generated) == GeneratedNames(s.generated) + [f]
  {
    assert GeneratedNames(Generate(s, raw, f, lib).generated) == GeneratedNames(s.generated) + [f];
  }

  /**
   * A compatible image whose copy exists, before `all`: the answers up to
   * the first decisive one are read; `y` draws this image only, `n` skips
   * it, `all` draws it and sets the flag.
   */
  lemma ExistingCopyAsks(s: Progress, raw: string, f: string, isDir: string -> bool, lib: FaceLibrary,
                         others: seq<string>, a: string, rest: seq<string>)
    requires !isDir(raw + f) && IsCompatible(f) && f in s.existing && !s.allOverwrite
    requires s.answers == others + [a] + rest
    requires forall i :: 0 <= i < |others| ==> !Decisive(others[i])
    requires Decisive(a)
    ensures Step(s, raw, f, isDir, lib).Ok?
    ensures var t := Step(s, raw, f, isDir, lib).value;
      && t.answers == rest
      && t.allOverwrite == (Lower(a) == "all")
      && GeneratedNames(t.generated) == GeneratedNames(s.generated) + (if Lower(a) == "n" then [] else [f])
  {
    OverwriteSkipsOthers(others, a, rest);
    var s' := s.(answers := rest);
    assert GeneratedNames(Generate(s', raw, f, lib).generated) == GeneratedNames(s.generated) + [f];
    assert GeneratedNames(s.generated) + [] == GeneratedNames(s.generated);
  }

  /** Each step keeps the `all` flag once it is set. */
  lemma StepKeepsAll(s: Progress, raw: string, f: string, isDir: string -> bool, lib: FaceLibrary)
    requires s.allOverwrite && Step(s, raw, f, isDir, lib).Ok?
    ensures Step(s, raw, f, isDir, lib).value.allOverwrite
  {
  }

  /**
   * After `all`, a listing of directories and compatible images asks
   * nothing more: no answer is read and every image is (re)drawn.
   */
  lemma {:induction false} AfterAllNoQuestions(s: Progress, raw: string, names: seq<string>, isDir: string -> bool, lib: FaceLibrary)
    requires s.allOverwrite
    requires forall i :: 0 <= i < |names| ==> isDir(raw + names[i]) || IsCompatible(names[i])
    ensures Steps(s, raw, names, isDir, lib).Ok?
    ensures var t := Steps(s, raw, names, isDir, lib).value;
      && t.allOverwrite && t.answers == s.answers
      && forall i :: 0 <= i < |names| && !isDir(raw + names[i]) ==> names[i] in GeneratedNames(t.generated)
  {
    if names != [] {
      var n := |names| - 1;
      var p := names[..n];
      assert forall i :: 0 <= i < n ==> p[i] == names[i];
      AfterAllNoQuestions(s, raw, p, isDir, lib);
      var t := Steps(s, raw, p, isDir, lib).value;
      var f := names[n];
      if !isDir(raw + f) {
        assert GeneratedNames(Generate(t, raw, f, lib).generated) == GeneratedNames(t.generated) + [f];
      }
    }
  }

  /**
   * An unsupported image still asks the formats question after `all`: the
   * answers up to the first `y` or `n` are read, and nothing else changes.
   */
  lemma UnsupportedAlwaysAsks(s: Progress, raw: string, f: string, isDir: string -> bool, lib: FaceLibrary,
                              others: seq<string>, a: string, rest: seq<string>)
    requires s.allOverwrite && !isDir(raw + f) && !IsCompatible(f)
    requires s.answers == others + [a] + rest
    requires forall i :: 0 <= i < |others| ==> !ClosesFormats(others[i])
    requires ClosesFormats(a)
    ensures Step(s, raw, f, isDir, lib) == Ok(s.(answers := rest))
  {
    FormatsSkipsOthers(others, a, rest);
  }

  /** After `all`, an unsupported image with no `y` or `n` left to read raises EOFError. */
  lemma UnsupportedExhausted(s: Progress, raw: string, f: string, isDir: string -> bool, lib: FaceLibrary)
    requires s.allOverwrite && !isDir(raw + f) && !IsCompatible(f)
    requires forall i :: 0 <= i < |s.answers| ==> !ClosesFormats(s.answers[i])
    ensures Step(s, raw, f, isDir, lib) == Raise(EofError)
  {
    FormatsExhausted(s.answers);
  }

  // ---------------------------------------------------------------- the loops

  /** Lines 122-134. */
  method ReadOverwrite(answers: seq<string>) returns (r: Result<(Reply, seq<string>)>)
    ensures r == AskOverwrite(answers)
  {
    var rest := answers;
    while rest != []
      invariant AskOverwrite(rest) == AskOverwrite(answers)
    {
      var a := Lower(rest[0]);
      if a == "y" {
        return Ok((Yes, rest[1..]));
      } else if a == "n" {
        return Ok((No, rest[1..]));
      } else if a == "all" {
        return Ok((All, rest[1..]));
      }
      rest := rest[1..];
    }
    r := Raise(EofError);
  }

  /** Lines 137-146. */
  method ReadShowFormats(answers: seq<string>) returns (r: Result<seq<string>>)
    ensures r == AskShowFormats(answers)
  {
    var rest := answers;
    while rest != []
      invariant AskShowFormats(rest) == AskShowFormats(answers)
    {
      var a := Lower(rest[0]);
      if a == "y" || a == "n" {
        return Ok(rest[1..]);
      }
      rest := rest[1..];
    }
    r := Raise(EofError);
  }

  /** One more name of the listing: the step the loop of lines 111-146 takes. */
  lemma StepsSnoc(s: Progress, raw: string, listing: seq<string>, i: nat, isDir: string -> bool, lib: FaceLibrary)
    requires i < |listing|
    ensures Steps(s, raw, listing[..i + 1], isDir, lib) ==
              match Steps(s, raw, listing[..i], isDir, lib)
              case Raise(e) => Raise(e)
              case Ok(t) => Step(t, raw, listing[i], isDir, lib)
  {
    assert listing[..i + 1][..i] == listing[..i];
  }

  /** An exception ends the flow: the later names change nothing. */
  lemma {:induction false} RaiseEndsSteps(s: Progress, raw: string, names: seq<string>, n: nat, isDir: string -> bool, lib: FaceLibrary)
    requires n <= |names| && Steps(s, raw, names[..n], isDir, lib).Raise?
    ensures Steps(s, raw, names, isDir, lib) == Steps(s, raw, names[..n], isDir, lib)
    decreases |names| - n
  {
    if n < |names| {
      StepsSnoc(s, raw, names, n, isDir, lib);
      RaiseEndsSteps(s, raw, names, n + 1, isDir, lib);
    } else {
      assert names[..n] == names;
    }
  }

  /** Lines 92-148, with the folder contents and the typed lines as values. */
  method StartPosition(raw: string, listing: seq<string>, existing: set<string>, answers: seq<string>,
                       isDir: string -> bool, lib: FaceLibrary) returns (r: Result<Progress>)
    ensures r == StartPositionOf(raw, listing, existing, answers, isDir, lib)
  {
    var present := existing;
    var allOverwrite := false;
    var rest := answers;
    var generated: seq<Generated> := [];
    var i := 0;
    while i < |listing|
      invariant 0 <= i <= |listing|
      invariant Steps(Progress(existing, false, answers, []), raw, listing[..i], isDir, lib) ==
                  Ok(Progress(present, allOverwrite, rest, generated))
    {
      StepsSnoc(Progress(existing, false, answers, []), raw, listing, i, isDir, lib);
      var f := listing[i];
      if isDir(raw + f) {
        i := i + 1;
        continue;
      }
      if IsCompatible(f) {
        if f !in present || allOverwrite {
          present := present + {f};
          generated := generated + [Generated(f, Boxes(lib.fileLocations(raw + f)))];
        } else {
          var reply := ReadOverwrite(rest);
          if reply.Raise? {
            RaiseEndsSteps(Progress(existing, false, answers, []), raw, listing, i + 1, isDir, lib);
            return Raise(reply.error);
          }
          rest := reply.value.1;
          if reply.value.0 != No {
            present := present + {f};
            generated := generated + [Generated(f, Boxes(lib.fileLocations(raw + f)))];
            if reply.value.0 == All {
              allOverwrite := true;
            }
          }
        }
      } else {
        var shown := ReadShowFormats(rest);
        if shown.Raise? {
          RaiseEndsSteps(Progress(existing, false, answers, []), raw, listing, i + 1, isDir, lib);
          return Raise(shown.error);
        }
        rest := shown.value;
      }
      i := i + 1;
    }
    assert listing[..i] == listing;
    r := Ok(Progress(present, allOverwrite, rest, generated));
  }
}
