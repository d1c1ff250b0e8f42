/**
 * The extractor (scripts/face_pipeline/extract_faces.py): enumerate the input
 * images, ask the face detector for the faces of each, bring every face to 8-bit
 * pixels and write it to the output directory under a name that records the
 * source image, the face's index and its bounding box.
 *
 * The detector is a function parameter: it receives the request the script builds
 * (path and the fixed options it passes) and returns the faces in its own order,
 * or fails, which is how a raised exception (strict mode finding no face, an
 * unreadable image) is represented. Such a failure ends the run.
 */
module ExtractFaces {
  import opened Outcomes
  import opened Decimal
  import opened Pathlib
  import opened ImageFiles

  // ---------------------------------------------------------------------------
  // iter_image_paths

  /** The paths of a list whose suffix marks them as images, in list order. */
  function ImagesOnly(paths: seq<Path>): (r: seq<Path>)
    ensures |r| <= |paths|
    decreases |paths|
  {
    if paths == [] then []
    else (if IsImageFile(paths[0]) then [paths[0]] else []) + ImagesOnly(paths[1..])
  }

  lemma {:induction false} ImagesOnlyMembers(paths: seq<Path>)
    ensures forall p :: p in ImagesOnly(paths) <==> p in paths && IsImageFile(p)
    decreases |paths|
  {
    if paths != [] {
      ImagesOnlyMembers(paths[1..]);
      assert paths == [paths[0]] + paths[1..];
    }
  }

  lemma {:induction false} ImagesOnlySorted(paths: seq<Path>)
    requires Sorted(paths)
    ensures Sorted(ImagesOnly(paths))
    decreases |paths|
  {
    if paths != [] {
      SortedTail(paths);
      ImagesOnlySorted(paths[1..]);
      if IsImageFile(paths[0]) {
        ImagesOnlyMembers(paths[1..]);
        SortedHeadBelowRest(paths);
        SortedCons(paths[0], ImagesOnly(paths[1..]));
      }
    }
  }

  /** Filtering keeps exactly the image paths of the list, and keeps a sorted list sorted. */
  lemma ImagesOnlySpec(paths: seq<Path>)
    ensures forall p :: p in ImagesOnly(paths) <==> p in paths && IsImageFile(p)
    ensures Sorted(paths) ==> Sorted(ImagesOnly(paths))
  {
    ImagesOnlyMembers(paths);
    if Sorted(paths) {
      ImagesOnlySorted(paths);
    }
  }

  /** What iter_image_paths yields for one argument. */
  function Expand(fs: FileSystem, arg: Path): seq<Path> {
    if IsDir(fs, arg) then ImagesOnly(SortedChildren(fs, arg)) else [arg]
  }

  /** iter_image_paths: the expansions of the arguments, in argument order. */
  function IterImagePaths(fs: FileSystem, args: seq<Path>): seq<Path>
    decreases |args|
  {
    if args == [] then [] else Expand(fs, args[0]) + IterImagePaths(fs, args[1..])
  }

  /**
   * A directory argument yields, in ascending order, exactly those of its
   * entries whose lower-cased suffix is an image extension.
   */
  lemma ExpandDirectory(fs: FileSystem, dir: Path)
    requires IsDir(fs, dir)
    ensures Sorted(Expand(fs, dir))
    ensures forall p :: p in Expand(fs, dir) <==>
              IsImageFile(p) && exists n :: n in fs.listings[dir] && p == Child(dir, n)
  {
    SortedChildrenSpec(fs, dir);
    ImagesOnlySpec(SortedChildren(fs, dir));
  }

  /** Enumerating a + b is enumerating a, then b. */
  lemma {:induction false} IterImagePathsAppend(fs: FileSystem, a: seq<Path>, b: seq<Path>)
    ensures IterImagePaths(fs, a + b) == IterImagePaths(fs, a) + IterImagePaths(fs, b)
    decreases |a|
  {
    if a != [] {
      assert (a + b)[1..] == a[1..] + b;
      IterImagePathsAppend(fs, a[1..], b);
    } else {
      assert a + b == b;
    }
  }

  /**
   * A non-directory argument is yielded exactly once, in its place and as
   * given, whatever its suffix.
   */
  lemma FileArgumentPassesThrough(fs: FileSystem, before: seq<Path>, arg: Path, after: seq<Path>)
    requires !IsDir(fs, arg)
    ensures IterImagePaths(fs, before + [arg] + after) ==
            IterImagePaths(fs, before) + [arg] + IterImagePaths(fs, after)
  {
    assert Expand(fs, arg) == [arg];
    assert [arg][1..] == [];
    assert IterImagePaths(fs, [arg]) == [arg];
    IterImagePathsAppend(fs, before + [arg], after);
    IterImagePathsAppend(fs, before, [arg]);
  }

  /** A path is enumerated exactly when some argument is that file, or a directory listing it as an image. */
  lemma {:induction false} IterImagePathsMembers(fs: FileSystem, args: seq<Path>, p: Path)
    ensures p in IterImagePaths(fs, args) <==>
            exists i :: 0 <= i < |args| &&
              if IsDir(fs, args[i]) then p in SortedChildren(fs, args[i]) && IsImageFile(p)
              else p == args[i]
    decreases |args|
  {
    if args != [] {
      IterImagePathsMembers(fs, args[1..], p);
      if IsDir(fs, args[0]) {
        ImagesOnlySpec(SortedChildren(fs, args[0]));
      }
      if p in IterImagePaths(fs, args[1..]) {
        var i :| 0 <= i < |args[1..]| &&
          if IsDir(fs, args[1..][i]) then p in SortedChildren(fs, args[1..][i]) && IsImageFile(p)
          else p == args[1..][i];
        assert args[i + 1] == args[1..][i];
      }
      if exists i :: 0 <= i < |args| &&
           if IsDir(fs, args[i]) then p in SortedChildren(fs, args[i]) && IsImageFile(p)
           else p == args[i]
      {
        var i :| 0 <= i < |args| &&
          if IsDir(fs, args[i]) then p in SortedChildren(fs, args[i]) && IsImageFile(p)
          else p == args[i];
        if i > 0 {
          assert args[1..][i - 1] == args[i];
        }
      }
    }
  }

  // ---------------------------------------------------------------------------
  // normalize_face

  /** A face's pixel array: 8-bit already, or any other (here: real) element type. */
  datatype Pixels = U8(bytes: seq<int>) | F(values: seq<real>)

  /** ndarray.max(). */
  function MaxOf(vs: seq<real>): (m: real)
    requires vs != []
    ensures forall i :: 0 <= i < |vs| ==> vs[i] <= m
    ensures exists i :: 0 <= i < |vs| && vs[i] == m
    decreases |vs|
  {
    if |vs| == 1 then vs[0]
    else
      var m := MaxOf(vs[..|vs| - 1]);
      if vs[|vs| - 1] > m then vs[|vs| - 1] else m
  }

  /** ndarray.clip(lo, hi) on one element. */
  function Clip(v: real, lo: real, hi: real): real {
    if v < lo then lo else if v > hi then hi else v
  }

  /** astype("uint8") of a float without wrap-around: truncation toward zero. */
  function Trunc(v: real): (t: int)
    ensures 0.0 <= v ==> 0 <= t && t as real <= v < t as real + 1.0
    ensures v < 0.0 ==> t <= 0 && t as real - 1.0 < v <= t as real
  {
    if 0.0 <= v then v.Floor else -((-v).Floor)
  }

  /**
   * normalize_face: an 8-bit array is returned as it is; any other array is
   * scaled by 255 and clipped to [0, 255] when its largest value is at most 1.0,
   * and then cast to 8 bits. The max() of an empty array raises, given as None.
   */
  function NormalizeFace(face: Pixels): (r: Option<Pixels>)
    ensures r.None? <==> face.F? && face.values == []
  {
    match face
    case U8(_) => Some(face)
    case F(vs) =>
      if vs == [] then None
      else if MaxOf(vs) <= 1.0 then
        Some(U8(seq(|vs|, i requires 0 <= i < |vs| => Trunc(Clip(vs[i] * 255.0, 0.0, 255.0)))))
      else
        Some(U8(seq(|vs|, i requires 0 <= i < |vs| => Trunc(vs[i]))))
  }

  /**
   * What normalize_face returns, element by element: 8-bit input unchanged;
   * otherwise as many 8-bit values as input values, each the truncation of
   * the value scaled and clipped into [0, 255] when the maximum is at most 1,
   * and of the value itself when the maximum exceeds 1.
   */
  lemma NormalizeFaceSpec(face: Pixels)
    ensures face.U8? ==> NormalizeFace(face) == Some(face)
    ensures face.F? && face.values != [] ==>
              var r := NormalizeFace(face).value;
              r.U8? && |r.bytes| == |face.values|
    ensures face.F? && face.values != [] && MaxOf(face.values) <= 1.0 ==>
              forall i :: 0 <= i < |face.values| ==>
                0 <= NormalizeFace(face).value.bytes[i] <= 255 &&
                NormalizeFace(face).value.bytes[i] == Trunc(Clip(face.values[i] * 255.0, 0.0, 255.0))
    ensures face.F? && face.values != [] && MaxOf(face.values) > 1.0 ==>
              forall i :: 0 <= i < |face.values| ==> NormalizeFace(face).value.bytes[i] == Trunc(face.values[i])
  {
  }

  /** Values in the unit interval become floor(255 v): the clip never cuts. */
  lemma UnitIntervalScaled(vs: seq<real>)
    requires vs != []
    requires forall i :: 0 <= i < |vs| ==> 0.0 <= vs[i] <= 1.0
    ensures NormalizeFace(F(vs)).Some?
    ensures forall i :: 0 <= i < |vs| ==> NormalizeFace(F(vs)).value.bytes[i] == (vs[i] * 255.0).Floor
  {
    var m := MaxOf(vs);
    var k :| 0 <= k < |vs| && vs[k] == m;
    assert m <= 1.0;
  }

  // ---------------------------------------------------------------------------
  // The crop's file name

  /** A face's bounding box in the source image (facial_area). */
  datatype FacialArea = FacialArea(x: int, y: int, w: int, h: int)

  /** One "_{tag}{n}" field of a crop name. */
  function Field(tag: string, n: int): string {
    "_" + tag + IntToString(n)
  }

  /** f"{stem}_face{idx}_x{x}_y{y}_w{w}_h{h}{suffix}". */
  function CropName(stem: string, idx: int, area: FacialArea, suffix: string): string {
    stem + Field("face", idx) + Field("x", area.x) + Field("y", area.y)
    + Field("w", area.w) + Field("h", area.h) + suffix
  }

  /** A crop's name starts with the source stem and ends with the source suffix. */
  lemma CropNameEnds(stem: string, idx: int, area: FacialArea, suffix: string)
    ensures stem <= CropName(stem, idx, area, suffix)
    ensures var name := CropName(stem, idx, area, suffix);
            |suffix| <= |name| && name[|name| - |suffix|..] == suffix
  {
    var body := stem + Field("face", idx) + Field("x", area.x) + Field("y", area.y)
                + Field("w", area.w) + Field("h", area.h);
    assert CropName(stem, idx, area, suffix) == body + suffix;
  }

  /** What a crop's name records about its face. */
  datatype CropLabel = CropLabel(stem: string, index: int, area: FacialArea)

  /** Splits s at its last '_' when what follows is `tag` and an integer. */
  function SplitField(s: string, tag: string): Option<(string, int)> {
    var i := RFind(s, '_');
    if i < 0 then None
    else
      var field := s[i + 1..];
      if tag <= field then
        match ParseInt(field[|tag|..])
        case Some(n) => Some((s[..i], n))
        case None => None
      else None
  }

  lemma {:induction false} RFindLast(a: string, c: char, b: string)
    requires c !in b
    ensures RFind(a + [c] + b, c) == |a|
    decreases |b|
  {
    if b != [] {
      var b' := b[..|b| - 1];
      RFindLast(a, c, b');
      assert (a + [c] + b)[..|a + [c] + b| - 1] == a + [c] + b';
    }
  }

  lemma SplitFieldAt(a: string, tag: string, digits: string, n: int)
    requires '_' !in tag && '_' !in digits
    requires ParseInt(digits) == Some(n)
    ensures SplitField(a + "_" + tag + digits, tag) == Some((a, n))
  {
    var rest := tag + digits;
    var s := a + ['_'] + rest;
    assert '_' !in rest by {
      forall k | 0 <= k < |rest| ensures rest[k] != '_' {
        if k >= |tag| { assert rest[k] == digits[k - |tag|]; }
      }
    }
    RFindLast(a, '_', rest);
    assert s[|a| + 1..] == rest;
    assert rest[|tag|..] == digits;
    assert s[..|a|] == a;
    assert a + "_" + tag + digits == s;
  }

  lemma NoUnderscoreInNumber(n: int)
    ensures '_' !in IntToString(n)
  {
    var digits := IntToString(n);
    IntToStringForm(n);
    forall k | 0 <= k < |digits|
      ensures digits[k] != '_'
    {
      if n < 0 && k > 0 {
        assert digits[k] == digits[1..][k - 1];
      }
    }
  }

  lemma SplitFieldOf(a: string, tag: string, n: int)
    requires '_' !in tag
    ensures SplitField(a + Field(tag, n), tag) == Some((a, n))
  {
    var digits := IntToString(n);
    var s := a + Field(tag, n);
    assert s == a + "_" + tag + digits;
    NoUnderscoreInNumber(n);
    ParseIntToString(n);
    SplitFieldAt(a, tag, digits, n);
  }

  /** The fields of a crop name, read from the right; what is left is the stem. */
  function DecodeFields(body: string): Option<CropLabel> {
    match SplitField(body, "h")
    case None => None
    case Some((rest, h)) => DecodeW(rest, h)
  }

  function DecodeW(body: string, h: int): Option<CropLabel> {
    match SplitField(body, "w")
    case None => None
    case Some((rest, w)) => DecodeY(rest, w, h)
  }

  function DecodeY(body: string, w: int, h: int): Option<CropLabel> {
    match SplitField(body, "y")
    case None => None
    case Some((rest, y)) => DecodeX(rest, y, w, h)
  }

  function DecodeX(body: string, y: int, w: int, h: int): Option<CropLabel> {
    match SplitField(body, "x")
    case None => None
    case Some((rest, x)) => DecodeIndex(rest, FacialArea(x, y, w, h))
  }

  function DecodeIndex(body: string, area: FacialArea): Option<CropLabel> {
    match SplitField(body, "face")
    case None => None
    case Some((stem, idx)) => Some(CropLabel(stem, idx, area))
  }

  /** Reads a crop's name back, given the suffix of its source image. */
  function DecodeCropName(name: string, suffix: string): Option<CropLabel> {
    if |suffix| <= |name| && name[|name| - |suffix|..] == suffix then
      DecodeFields(name[..|name| - |suffix|])
    else None
  }

  lemma DecodeIndexOf(stem: string, idx: int, area: FacialArea)
    ensures DecodeIndex(stem + Field("face", idx), area) == Some(CropLabel(stem, idx, area))
  {
    SplitFieldOf(stem, "face", idx);
  }

  lemma DecodeXOf(stem: string, idx: int, area: FacialArea)
    ensures DecodeX(stem + Field("face", idx) + Field("x", area.x), area.y, area.w, area.h)
            == Some(CropLabel(stem, idx, area))
  {
    SplitFieldOf(stem + Field("face", idx), "x", area.x);
    DecodeIndexOf(stem, idx, area);
  }

  lemma DecodeYOf(stem: string, idx: int, area: FacialArea)
    ensures DecodeY(stem + Field("face", idx) + Field("x", area.x) + Field("y", area.y), area.w, area.h)
            == Some(CropLabel(stem, idx, area))
  {
    SplitFieldOf(stem + Field("face", idx) + Field("x", area.x), "y", area.y);
    DecodeXOf(stem, idx, area);
  }

  lemma DecodeWOf(stem: string, idx: int, area: FacialArea)
    ensures DecodeW(stem + Field("face", idx) + Field("x", area.x) + Field("y", area.y)
                    + Field("w", area.w), area.h)
            == Some(CropLabel(stem, idx, area))
  {
    SplitFieldOf(stem + Field("face", idx) + Field("x", area.x) + Field("y", area.y), "w", area.w);
    DecodeYOf(stem, idx, area);
  }

  /** The crop name is unambiguous: it gives back the stem, the index and the box. */
  lemma DecodeCropNameRoundTrip(stem: string, idx: int, area: FacialArea, suffix: string)
    ensures DecodeCropName(CropName(stem, idx, area, suffix), suffix) == Some(CropLabel(stem, idx, area))
  {
    var s4 := stem + Field("face", idx) + Field("x", area.x) + Field("y", area.y) + Field("w", area.w);
    var s5 := s4 + Field("h", area.h);
    SplitFieldOf(s4, "h", area.h);
    DecodeWOf(stem, idx, area);
    assert DecodeFields(s5) == Some(CropLabel(stem, idx, area));
    var name := CropName(stem, idx, area, suffix);
    assert name == s5 + suffix;
    assert name[..|name| - |suffix|] == s5;
  }

  /** Two crops of one source image with different indices or boxes get different names. */
  lemma CropNameInjective(stem: string, i: int, a: FacialArea, j: int, b: FacialArea, suffix: string)
    requires CropName(stem, i, a, suffix) == CropName(stem, j, b, suffix)
    ensures i == j && a == b
  {
    DecodeCropNameRoundTrip(stem, i, a, suffix);
    DecodeCropNameRoundTrip(stem, j, b, suffix);
  }

  /** A crop name ending in a suffix of pathlib's form has that suffix as its own. */
  lemma CropNameSuffix(stem: string, idx: int, area: FacialArea, suffix: string)
    requires 2 <= |suffix| && suffix[0] == '.' && '.' !in suffix[1..]
    ensures Suffix(CropName(stem, idx, area, suffix)) == suffix
  {
    var name := CropName(stem, idx, area, suffix);
    var at := |name| - |suffix|;
    assert name[at..] == suffix;
    forall k | at < k < |name|
      ensures name[k] != '.'
    {
      assert name[k] == suffix[1..][k - at - 1];
    }
    assert at >= |stem| + 5;
    SuffixAtLastDot(name, at);
  }

  /**
   * A crop keeps its source's suffix as its own pathlib suffix, so it is written
   * in the source's image format.
   */
  lemma CropKeepsSuffix(source: Path, idx: int, area: FacialArea)
    requires Suffix(Name(source)) != []
    ensures var name := CropName(Stem(Name(source)), idx, area, Suffix(Name(source)));
            Suffix(name) == Suffix(Name(source))
  {
    StemSuffixSplit(Name(source));
    CropNameSuffix(Stem(Name(source)), idx, area, Suffix(Name(source)));
  }

  // ---------------------------------------------------------------------------
  // The per-image loop of main

  /** The command-line options that reach the detector. */
  datatype Options = Options(enforceDetection: bool, expandPercentage: int)

  /** The arguments of one DeepFace.extract_faces call. */
  datatype ExtractRequest = ExtractRequest(
    imgPath: string, detectorBackend: string, enforceDetection: bool, align: bool,
    expandPercentage: int, colorFace: string, normalizeFace: bool)

  /** One detected face: its pixels and its facial_area. */
  datatype FaceObject = FaceObject(face: Pixels, facialArea: FacialArea)

  /** The detector's answer: the faces in its order, or a raised exception. */
  datatype Detection = Detected(faces: seq<FaceObject>) | DetectionFailed

  /** The call main makes for one image: RetinaFace, aligned, BGR, not normalised. */
  function DetectRequest(path: Path, opts: Options): ExtractRequest {
    ExtractRequest(str(path), "retinaface", opts.enforceDetection, true,
                   opts.expandPercentage, "bgr", false)
  }

  /**
   * One cv2.imwrite: face number `index` (with bounding box `area`) of the
   * image whose name has stem `stem` and suffix `suffix`, and the pixels written.
   */
  datatype Crop = Crop(stem: string, suffix: string, index: int, area: FacialArea, pixels: Pixels)

  /** The name the crop is written under. */
  function FileName(c: Crop): string {
    CropName(c.stem, c.index, c.area, c.suffix)
  }

  /** The crops written, in order, and whether the run went on afterwards. */
  datatype Trace = Trace(writes: seq<Crop>, status: Status)

  /** Running one part and then, unless it aborted, the next. */
  function Then(t: Trace, u: Trace): Trace {
    if t.status == Aborted then t else Trace(t.writes + u.writes, u.status)
  }

  lemma ThenAssociative(s: Trace, t: Trace, u: Trace)
    ensures Then(Then(s, t), u) == Then(s, Then(t, u))
  {
    if s.status == Completed && t.status == Completed {
      assert s.writes + t.writes + u.writes == s.writes + (t.writes + u.writes);
    }
  }

  /** normalize_face does not raise on this face. */
  predicate Normalizes(fo: FaceObject) {
    NormalizeFace(fo.face).Some?
  }

  /** The crop written for face number idx of the image with that stem and suffix. */
  function CropFor(stem: string, suffix: string, idx: int, fo: FaceObject): Crop
    requires Normalizes(fo)
  {
    Crop(stem, suffix, idx, fo.facialArea, NormalizeFace(fo.face).value)
  }

  /** Face number idx: its crop, or the exception normalize_face raises. */
  function FaceCrop(stem: string, suffix: string, idx: int, fo: FaceObject): Trace {
    if Normalizes(fo) then Trace([CropFor(stem, suffix, idx, fo)], Completed) else Trace([], Aborted)
  }

  /** `for idx, face_obj in enumerate(faces, start=1)`: the crops of one image. */
  function FacesTrace(stem: string, suffix: string, faces: seq<FaceObject>): Trace
    decreases |faces|
  {
    if faces == [] then Trace([], Completed)
    else Then(FacesTrace(stem, suffix, faces[..|faces| - 1]), FaceCrop(stem, suffix, |faces|, faces[|faces| - 1]))
  }

  /** One image: detection, then its faces. */
  function ImageTrace(path: Path, opts: Options, detect: ExtractRequest -> Detection): Trace {
    match detect(DetectRequest(path, opts))
    case DetectionFailed => Trace([], Aborted)
    case Detected(faces) => FacesTrace(Stem(Name(path)), Suffix(Name(path)), faces)
  }

  /** A list of images, one after the other. */
  function ImagesTrace(paths: seq<Path>, opts: Options, detect: ExtractRequest -> Detection): Trace
    decreases |paths|
  {
    if paths == [] then Trace([], Completed)
    else Then(ImagesTrace(paths[..|paths| - 1], opts, detect), ImageTrace(paths[|paths| - 1], opts, detect))
  }

  /**
   * The crops of an image: face k (counting from 1, in the detector's order)
   * becomes the crop named with index k and its own box, until a face whose
   * pixels cannot be normalised stops the run.
   */
  lemma {:induction false} FacesTraceSpec(stem: string, suffix: string, faces: seq<FaceObject>)
    ensures |FacesTrace(stem, suffix, faces).writes| <= |faces|
    ensures forall k :: 0 <= k < |FacesTrace(stem, suffix, faces).writes| ==>
              Normalizes(faces[k]) && FacesTrace(stem, suffix, faces).writes[k] == CropFor(stem, suffix, k + 1, faces[k])
    ensures FacesTrace(stem, suffix, faces).status == Completed ==> |FacesTrace(stem, suffix, faces).writes| == |faces|
    ensures FacesTrace(stem, suffix, faces).status == Aborted ==>
              |FacesTrace(stem, suffix, faces).writes| < |faces| && !Normalizes(faces[|FacesTrace(stem, suffix, faces).writes|])
    decreases |faces|
  {
    if faces != [] {
      var n := |faces|;
      var init := faces[..n - 1];
      FacesTraceSpec(stem, suffix, init);
      var t0 := FacesTrace(stem, suffix, init);
      var t := FacesTrace(stem, suffix, faces);
      assert t == Then(t0, FaceCrop(stem, suffix, n, faces[n - 1]));
      assert forall k :: 0 <= k < n - 1 ==> init[k] == faces[k];
      if t0.status == Completed {
        if Normalizes(faces[n - 1]) {
          assert t == Trace(t0.writes + [CropFor(stem, suffix, n, faces[n - 1])], Completed);
        } else {
          assert t == Trace(t0.writes, Aborted);
        }
      }
    }
  }

  /** An image's faces all reach the disk exactly when every one of them can be normalised. */
  lemma FacesTraceCompletes(stem: string, suffix: string, faces: seq<FaceObject>)
    ensures FacesTrace(stem, suffix, faces).status == Completed <==> forall k :: 0 <= k < |faces| ==> Normalizes(faces[k])
  {
    FacesTraceSpec(stem, suffix, faces);
  }

  /** Two crops with the same stem and suffix that share a file name share their index and box. */
  lemma FileNameInjective(c: Crop, d: Crop)
    requires c.stem == d.stem && c.suffix == d.suffix && FileName(c) == FileName(d)
    ensures c.index == d.index && c.area == d.area
  {
    CropNameInjective(c.stem, c.index, c.area, d.index, d.area, c.suffix);
  }

  /** Different faces of one image never share a crop name. */
  lemma CropNamesDistinct(stem: string, suffix: string, faces: seq<FaceObject>)
    ensures var w := FacesTrace(stem, suffix, faces).writes;
            forall i, j :: 0 <= i < j < |w| ==> FileName(w[i]) != FileName(w[j])
  {
    FacesTraceSpec(stem, suffix, faces);
    var w := FacesTrace(stem, suffix, faces).writes;
    forall i, j | 0 <= i < j < |w|
      ensures FileName(w[i]) != FileName(w[j])
    {
      assert w[i].stem == stem && w[i].suffix == suffix && w[i].index == i + 1;
      assert w[j].stem == stem && w[j].suffix == suffix && w[j].index == j + 1;
      if FileName(w[i]) == FileName(w[j]) {
        FileNameInjective(w[i], w[j]);
      }
    }
  }

  /** Processing a + b is processing a and then, unless it aborted, b. */
  lemma {:induction false} ImagesTraceAppend(a: seq<Path>, b: seq<Path>, opts: Options,
                                             detect: ExtractRequest -> Detection)
    ensures ImagesTrace(a + b, opts, detect) == Then(ImagesTrace(a, opts, detect), ImagesTrace(b, opts, detect))
    decreases |b|
  {
    if b == [] {
      assert a + b == a;
      var t := ImagesTrace(a, opts, detect);
      assert t.writes + [] == t.writes;
    } else {
      var b' := b[..|b| - 1];
      assert (a + b)[..|a + b| - 1] == a + b';
      ImagesTraceAppend(a, b', opts, detect);
      ThenAssociative(ImagesTrace(a, opts, detect), ImagesTrace(b', opts, detect),
                      ImageTrace(b[|b| - 1], opts, detect));
    }
  }

  /** An image with no detected face writes nothing and the run carries on. */
  lemma NoFaceImageWritesNothing(before: seq<Path>, p: Path, after: seq<Path>, opts: Options,
                                 detect: ExtractRequest -> Detection)
    requires detect(DetectRequest(p, opts)) == Detected([])
    ensures ImagesTrace(before + [p] + after, opts, detect) == ImagesTrace(before + after, opts, detect)
  {
    ImagesTraceAppend(before + [p], after, opts, detect);
    ImagesTraceAppend(before, after, opts, detect);
    var t := ImagesTrace(before, opts, detect);
    assert (before + [p])[..|before + [p]| - 1] == before;
    assert t.writes + [] == t.writes;
  }

  /** When the detector raises for an image, nothing of any later image is written. */
  lemma DetectionFailureEndsRun(paths: seq<Path>, j: nat, opts: Options, detect: ExtractRequest -> Detection)
    requires j < |paths|
    requires detect(DetectRequest(paths[j], opts)).DetectionFailed?
    ensures ImagesTrace(paths, opts, detect).status == Aborted
    ensures ImagesTrace(paths, opts, detect) == Then(ImagesTrace(paths[..j], opts, detect), Trace([], Aborted))
  {
    assert paths == paths[..j + 1] + paths[j + 1..];
    ImagesTraceAppend(paths[..j + 1], paths[j + 1..], opts, detect);
    assert paths[..j + 1][..j] == paths[..j];
  }

  // ---------------------------------------------------------------------------
  // main: the run over all arguments, on the real file system

  /** The directory listings after the crops `writes` were created in `dir`. */
  function AfterWrites(fs: FileSystem, dir: Path, writes: seq<Crop>): (r: FileSystem)
    ensures r.listings.Keys == fs.listings.Keys
    ensures forall d :: d in fs.listings && d != dir ==> r.listings[d] == fs.listings[d]
    decreases |writes|
  {
    if writes == [] then fs
    else AddEntry(AfterWrites(fs, dir, writes[..|writes| - 1]), dir, FileName(writes[|writes| - 1]))
  }

  /**
   * After the writes, the output directory lists exactly its old entries and
   * the names of the crops written into it.
   */
  lemma {:induction false} AfterWritesListing(fs: FileSystem, dir: Path, writes: seq<Crop>)
    requires dir in fs.listings
    ensures forall n :: n in AfterWrites(fs, dir, writes).listings[dir] <==>
              n in fs.listings[dir] || Child(dir, n) in WrittenPaths(dir, writes)
    decreases |writes|
  {
    if writes != [] {
      var init, last := writes[..|writes| - 1], writes[|writes| - 1];
      AfterWritesListing(fs, dir, init);
      forall n
        ensures n in AfterWrites(fs, dir, writes).listings[dir] <==>
                n in fs.listings[dir] || Child(dir, n) in WrittenPaths(dir, writes)
      {
        ChildInjective(dir, n, FileName(last));
      }
    }
  }

  /** The paths of the crops `writes` in `dir`. */
  function WrittenPaths(dir: Path, writes: seq<Crop>): set<Path>
    decreases |writes|
  {
    if writes == [] then {}
    else WrittenPaths(dir, writes[..|writes| - 1]) + {Child(dir, FileName(writes[|writes| - 1]))}
  }

  /** The image files after the crops `writes` were written into `dir`, later ones replacing earlier. */
  function Stored(files: map<Path, Pixels>, dir: Path, writes: seq<Crop>): map<Path, Pixels>
    decreases |writes|
  {
    if writes == [] then files
    else
      var last := writes[|writes| - 1];
      Stored(files, dir, writes[..|writes| - 1])[Child(dir, FileName(last)) := last.pixels]
  }

  /** No crop after the k-th is written under the same name. */
  predicate LastUnderItsName(writes: seq<Crop>, k: int)
    requires 0 <= k < |writes|
  {
    forall j :: k < j < |writes| ==> FileName(writes[j]) != FileName(writes[k])
  }

  /** A crop that no later crop overwrites is not overwritten by the last one, nor by any crop before it. */
  lemma LastUnderItsNameInit(writes: seq<Crop>, k: nat)
    requires k < |writes| - 1 && LastUnderItsName(writes, k)
    ensures FileName(writes[|writes| - 1]) != FileName(writes[k])
    ensures LastUnderItsName(writes[..|writes| - 1], k)
  {
    var init := writes[..|writes| - 1];
    forall j | k < j < |init|
      ensures FileName(init[j]) != FileName(init[k])
    {
      assert init[j] == writes[j] && init[k] == writes[k];
    }
  }

  /** A file that a write under another name leaves alone keeps what it held. */
  lemma StoredPastOther(files: map<Path, Pixels>, dir: Path, writes: seq<Crop>, p: Path, v: Pixels)
    requires writes != [] && p != Child(dir, FileName(writes[|writes| - 1]))
    requires p in Stored(files, dir, writes[..|writes| - 1]) && Stored(files, dir, writes[..|writes| - 1])[p] == v
    ensures p in Stored(files, dir, writes) && Stored(files, dir, writes)[p] == v
  {
  }

  /** The crop written last holds its pixels. */
  lemma StoredLatest(files: map<Path, Pixels>, dir: Path, writes: seq<Crop>)
    requires writes != []
    ensures Child(dir, FileName(writes[|writes| - 1])) in Stored(files, dir, writes)
    ensures Stored(files, dir, writes)[Child(dir, FileName(writes[|writes| - 1]))] == writes[|writes| - 1].pixels
  {
  }

  /** A crop that no later crop overwrites holds its pixels at the end. */
  lemma {:induction false} StoredLastWrite(files: map<Path, Pixels>, dir: Path, writes: seq<Crop>, k: nat)
    requires k < |writes| && LastUnderItsName(writes, k)
    ensures Child(dir, FileName(writes[k])) in Stored(files, dir, writes)
    ensures Stored(files, dir, writes)[Child(dir, FileName(writes[k]))] == writes[k].pixels
    decreases |writes|
  {
    var n := |writes|;
    var init := writes[..n - 1];
    if k < n - 1 {
      var key := Child(dir, FileName(writes[k]));
      assert key != Child(dir, FileName(writes[n - 1])) && init[k] == writes[k] && LastUnderItsName(init, k) by {
        LastUnderItsNameInit(writes, k);
        ChildInjective(dir, FileName(writes[n - 1]), FileName(writes[k]));
      }
      StoredLastWrite(files, dir, init, k);
      StoredPastOther(files, dir, writes, key, writes[k].pixels);
    } else {
      StoredLatest(files, dir, writes);
    }
  }

  /**
   * After the writes, the files are the old ones plus one per crop path; a file
   * no crop was written to keeps its contents (nothing is deleted), and every
   * crop that no later crop overwrites holds its pixels.
   */
  lemma {:induction false} StoredSpec(files: map<Path, Pixels>, dir: Path, writes: seq<Crop>)
    ensures Stored(files, dir, writes).Keys == files.Keys + WrittenPaths(dir, writes)
    ensures forall p :: p in files && p !in WrittenPaths(dir, writes) ==> Stored(files, dir, writes)[p] == files[p]
    ensures forall k :: 0 <= k < |writes| && LastUnderItsName(writes, k) ==>
              var key := Child(dir, FileName(writes[k]));
              key in Stored(files, dir, writes) && Stored(files, dir, writes)[key] == writes[k].pixels
    decreases |writes|
  {
    if writes != [] {
      StoredSpec(files, dir, writes[..|writes| - 1]);
    }
    forall k | 0 <= k < |writes| && LastUnderItsName(writes, k)
      ensures var key := Child(dir, FileName(writes[k]));
              key in Stored(files, dir, writes) && Stored(files, dir, writes)[key] == writes[k].pixels
    {
      StoredLastWrite(files, dir, writes, k);
    }
  }

  /** Every face of an image that completed is on disk, under its own crop name, with its normalised pixels. */
  lemma FacesStored(files: map<Path, Pixels>, dir: Path, stem: string, suffix: string, faces: seq<FaceObject>)
    requires FacesTrace(stem, suffix, faces).status == Completed
    ensures var w := FacesTrace(stem, suffix, faces).writes;
            |w| == |faces| &&
            forall k :: 0 <= k < |faces| ==>
              Normalizes(faces[k]) &&
              FileName(w[k]) == CropName(stem, k + 1, faces[k].facialArea, suffix) &&
              Child(dir, FileName(w[k])) in Stored(files, dir, w) &&
              Stored(files, dir, w)[Child(dir, FileName(w[k]))] == NormalizeFace(faces[k].face).value
  {
    FacesTraceSpec(stem, suffix, faces);
    forall k | 0 <= k < |faces| {
      FaceStored(files, dir, stem, suffix, faces, k);
    }
  }

  /** Face number k + 1 of an image that completed is on disk under its crop name, with its normalised pixels. */
  lemma FaceStored(files: map<Path, Pixels>, dir: Path, stem: string, suffix: string, faces: seq<FaceObject>, k: nat)
    requires FacesTrace(stem, suffix, faces).status == Completed && k < |faces|
    ensures var w := FacesTrace(stem, suffix, faces).writes;
            k < |w| &&
            Normalizes(faces[k]) &&
            FileName(w[k]) == CropName(stem, k + 1, faces[k].facialArea, suffix) &&
            Child(dir, FileName(w[k])) in Stored(files, dir, w) &&
            Stored(files, dir, w)[Child(dir, FileName(w[k]))] == NormalizeFace(faces[k].face).value
  {
    var w := FacesTrace(stem, suffix, faces).writes;
    assert k < |w| && Normalizes(faces[k]) && w[k] == CropFor(stem, suffix, k + 1, faces[k]) by {
      FacesTraceSpec(stem, suffix, faces);
    }
    assert w[k].stem == stem && w[k].index == k + 1 && w[k].area == faces[k].facialArea && w[k].suffix == suffix;
    assert LastUnderItsName(w, k) by {
      CropNamesDistinct(stem, suffix, faces);
    }
    StoredLastWrite(files, dir, w, k);
  }



  /**
   * The whole run. iter_image_paths is a generator: an argument is expanded only
   * when the loop reaches it, so a directory argument is listed after the crops
   * of all earlier arguments have been written.
   */
  function RunTrace(fs: FileSystem, outDir: Path, args: seq<Path>, opts: Options,
                    detect: ExtractRequest -> Detection): Trace
    decreases |args|
  {
    if args == [] then Trace([], Completed)
    else
      var t := RunTrace(fs, outDir, args[..|args| - 1], opts, detect);
      Then(t, ImagesTrace(Expand(AfterWrites(fs, outDir, t.writes), args[|args| - 1]), opts, detect))
  }

  /**
   * The output directory is created before the arguments are expanded, so a
   * directory argument that is its parent yields the output directory itself
   * when its name carries an image suffix.
   */
  lemma NewOutputDirEnumerated(fs: FileSystem, outDir: Path)
    requires !IsDir(fs, outDir) && IsDir(fs, Parent(outDir)) && Name(outDir) != []
    requires IsImageFile(Child(Parent(outDir), Name(outDir)))
    ensures Child(Parent(outDir), Name(outDir)) in Expand(MakeDir(fs, outDir), Parent(outDir))
  {
    var fs0 := MakeDir(fs, outDir);
    assert Name(outDir) in fs0.listings[Parent(outDir)];
    ExpandDirectory(fs0, Parent(outDir));
  }

  /** Writing crops into outDir does not change what another argument expands to. */
  lemma ExpandUnaffected(fs: FileSystem, outDir: Path, writes: seq<Crop>, arg: Path)
    requires arg != outDir
    ensures Expand(AfterWrites(fs, outDir, writes), arg) == Expand(fs, arg)
  {
    var after := AfterWrites(fs, outDir, writes);
    if IsDir(fs, arg) {
      assert after.listings[arg] == fs.listings[arg];
    }
  }

  lemma IterImagePathsSnoc(fs: FileSystem, init: seq<Path>, last: Path)
    ensures IterImagePaths(fs, init + [last]) == IterImagePaths(fs, init) + Expand(fs, last)
  {
    IterImagePathsAppend(fs, init, [last]);
    assert IterImagePaths(fs, [last]) == Expand(fs, last) + IterImagePaths(fs, []);
  }

  /**
   * When the output directory is not itself one of the arguments, the run is the
   * same as enumerating every argument first: the images of IterImagePaths, in order.
   */
  lemma {:induction false} RunMatchesIterImagePaths(fs: FileSystem, outDir: Path, args: seq<Path>,
                                                    opts: Options, detect: ExtractRequest -> Detection)
    requires outDir !in args
    ensures RunTrace(fs, outDir, args, opts, detect) == ImagesTrace(IterImagePaths(fs, args), opts, detect)
    decreases |args|
  {
    if args != [] {
      var init, last := args[..|args| - 1], args[|args| - 1];
      assert args == init + [last];
      RunMatchesIterImagePaths(fs, outDir, init, opts, detect);
      var t := RunTrace(fs, outDir, init, opts, detect);
      ExpandUnaffected(fs, outDir, t.writes, last);
      IterImagePathsSnoc(fs, init, last);
      ImagesTraceAppend(IterImagePaths(fs, init), Expand(fs, last), opts, detect);
    }
  }

  /** The part of the file system the extractor reads and writes. */
  class Disk {
    /** The directory listings (is_dir, iterdir). */
    var fs: FileSystem
    /** The image files written so far, by path. */
    var files: map<Path, Pixels>

    constructor (fs: FileSystem)
      ensures this.fs == fs && files == map[]
    {
      this.fs := fs;
      files := map[];
    }

    /** Path.mkdir(parents=True, exist_ok=True): Aborted when it raises, and then nothing changes. */
    method MakeDirs(dir: Path) returns (status: Status)
      modifies this
      ensures status == Aborted <==> MakeDirRaises(old(fs), dir)
      ensures fs == (if status == Aborted then old(fs) else MakeDir(old(fs), dir)) && files == old(files)
    {
      if MakeDirRaises(fs, dir) {
        return Aborted;
      }
      fs := MakeDir(fs, dir);
      status := Completed;
    }

    /** cv2.imwrite(str(dir / name), pixels): creates or replaces the file. */
    method WriteImage(dir: Path, name: string, pixels: Pixels)
      modifies this
      ensures fs == AddEntry(old(fs), dir, name)
      ensures files == old(files)[Child(dir, name) := pixels]
    {
      fs := AddEntry(fs, dir, name);
      files := files[Child(dir, name) := pixels];
    }
  }

  lemma RunTraceAbortedStays(fs: FileSystem, outDir: Path, args: seq<Path>, i: nat, opts: Options,
                             detect: ExtractRequest -> Detection)
    requires i <= |args|
    requires RunTrace(fs, outDir, args[..i], opts, detect).status == Aborted
    ensures RunTrace(fs, outDir, args, opts, detect) == RunTrace(fs, outDir, args[..i], opts, detect)
    decreases |args| - i
  {
    if i < |args| {
      assert args[..i + 1][..i] == args[..i];
      RunTraceAbortedStays(fs, outDir, args, i + 1, opts, detect);
    } else {
      assert args[..i] == args;
    }
  }

  lemma ImagesTraceAbortedStays(paths: seq<Path>, j: nat, opts: Options, detect: ExtractRequest -> Detection)
    requires j <= |paths|
    requires ImagesTrace(paths[..j], opts, detect).status == Aborted
    ensures ImagesTrace(paths, opts, detect) == ImagesTrace(paths[..j], opts, detect)
  {
    var a, b := paths[..j], paths[j..];
    assert a + b == paths;
    ImagesTraceAppend(a, b, opts, detect);
    var ta, tb := ImagesTrace(a, opts, detect), ImagesTrace(b, opts, detect);
    assert ImagesTrace(paths, opts, detect) == Then(ta, tb);
  }

  lemma FacesTraceAbortedStays(stem: string, suffix: string, faces: seq<FaceObject>, k: nat)
    requires k <= |faces|
    requires FacesTrace(stem, suffix, faces[..k]).status == Aborted
    ensures FacesTrace(stem, suffix, faces) == FacesTrace(stem, suffix, faces[..k])
    decreases |faces| - k
  {
    if k < |faces| {
      assert faces[..k + 1][..k] == faces[..k];
      FacesTraceAbortedStays(stem, suffix, faces, k + 1);
    } else {
      assert faces[..k] == faces;
    }
  }

  /** Image j + 1 is processed after the images before it, which all completed. */
  lemma ImagesTraceStep(paths: seq<Path>, j: nat, written: seq<Crop>, opts: Options,
                        detect: ExtractRequest -> Detection)
    requires j < |paths|
    requires ImagesTrace(paths[..j], opts, detect) == Trace(written, Completed)
    ensures var t := ImageTrace(paths[j], opts, detect);
            ImagesTrace(paths[..j + 1], opts, detect) == Trace(written + t.writes, t.status)
  {
    assert paths[..j + 1][..j] == paths[..j];
  }

  /** Argument i + 1 is expanded on the disk the arguments before it left, and its images processed. */
  lemma RunTraceStep(fs: FileSystem, outDir: Path, args: seq<Path>, i: nat, written: seq<Crop>, opts: Options,
                     detect: ExtractRequest -> Detection)
    requires i < |args|
    requires RunTrace(fs, outDir, args[..i], opts, detect) == Trace(written, Completed)
    ensures RunTrace(fs, outDir, args[..i + 1], opts, detect)
            == Then(Trace(written, Completed), ImagesTrace(Expand(AfterWrites(fs, outDir, written), args[i]), opts, detect))
  {
    assert args[..i + 1][..i] == args[..i];
  }

  /** Face k + 1 either adds its crop to those of the faces before it or stops the run. */
  lemma FacesTraceStep(stem: string, suffix: string, faces: seq<FaceObject>, k: nat, written: seq<Crop>)
    requires k < |faces|
    requires FacesTrace(stem, suffix, faces[..k]) == Trace(written, Completed)
    ensures FacesTrace(stem, suffix, faces[..k + 1])
            == if Normalizes(faces[k]) then Trace(written + [CropFor(stem, suffix, k + 1, faces[k])], Completed)
               else Trace(written, Aborted)
  {
    assert faces[..k + 1][..k] == faces[..k];
  }

  /** One more crop: its name joins the directory listing and its file is (re)written. */
  lemma WriteOneMore(fs: FileSystem, files: map<Path, Pixels>, dir: Path, writes: seq<Crop>, c: Crop)
    ensures AfterWrites(fs, dir, writes + [c]) == AddEntry(AfterWrites(fs, dir, writes), dir, FileName(c))
    ensures Stored(files, dir, writes + [c]) == Stored(files, dir, writes)[Child(dir, FileName(c)) := c.pixels]
  {
    assert (writes + [c])[..|writes|] == writes;
  }

  /** Creating the crops a + b is creating a, then b. */
  lemma {:induction false} AfterWritesAppend(fs: FileSystem, dir: Path, a: seq<Crop>, b: seq<Crop>)
    ensures AfterWrites(fs, dir, a + b) == AfterWrites(AfterWrites(fs, dir, a), dir, b)
    decreases |b|
  {
    if b == [] {
      assert a + b == a;
    } else {
      var b' := b[..|b| - 1];
      assert (a + b)[..|a + b| - 1] == a + b';
      AfterWritesAppend(fs, dir, a, b');
    }
  }

  /** Writing the crops a + b is writing a, then b. */
  lemma {:induction false} StoredAppend(files: map<Path, Pixels>, dir: Path, a: seq<Crop>, b: seq<Crop>)
    ensures Stored(files, dir, a + b) == Stored(Stored(files, dir, a), dir, b)
    decreases |b|
  {
    if b == [] {
      assert a + b == a;
    } else {
      var b' := b[..|b| - 1];
      var last := b[|b| - 1];
      assert (a + b)[..|a + b| - 1] == a + b';
      assert (a + b)[|a + b| - 1] == last;
      StoredAppend(files, dir, a, b');
      var key := Child(dir, FileName(last));
      assert Stored(files, dir, a + b) == Stored(files, dir, a + b')[key := last.pixels];
      assert Stored(Stored(files, dir, a), dir, b) == Stored(Stored(files, dir, a), dir, b')[key := last.pixels];
    }
  }

  /**
   * The inner loop of main for one image (whose name has stem `stem` and
   * suffix `suffix`): write the crop of each face in turn, stopping at the
   * first face normalize_face rejects.
   */
  method WriteFaces(disk: Disk, stem: string, suffix: string, faces: seq<FaceObject>, outDir: Path) returns (status: Status)
    modifies disk
    ensures var t := FacesTrace(stem, suffix, faces);
            status == t.status &&
            disk.fs == AfterWrites(old(disk.fs), outDir, t.writes) &&
            disk.files == Stored(old(disk.files), outDir, t.writes)
  {
    ghost var written: seq<Crop> := [];
    var k := 0;
    while k < |faces|
      invariant 0 <= k <= |faces|
      invariant FacesTrace(stem, suffix, faces[..k]) == Trace(written, Completed)
      invariant disk.fs == AfterWrites(old(disk.fs), outDir, written)
      invariant disk.files == Stored(old(disk.files), outDir, written)
    {
      FacesTraceStep(stem, suffix, faces, k, written);
      var face := NormalizeFace(faces[k].face);
      if face.None? {
        FacesTraceAbortedStays(stem, suffix, faces, k + 1);
        assert FacesTrace(stem, suffix, faces) == Trace(written, Aborted);
        return Aborted;
      }
      var crop := Crop(stem, suffix, k + 1, faces[k].facialArea, face.value);
      disk.WriteImage(outDir, FileName(crop), crop.pixels);
      WriteOneMore(old(disk.fs), old(disk.files), outDir, written, crop);
      written := written + [crop];
      k := k + 1;
    }
    assert faces[..k] == faces;
    assert FacesTrace(stem, suffix, faces) == Trace(written, Completed);
    status := Completed;
  }

  /** One image: ask the detector for its faces, then write their crops. */
  method ProcessImage(disk: Disk, path: Path, outDir: Path, opts: Options,
                    detect: ExtractRequest -> Detection) returns (status: Status)
    modifies disk
    ensures var t := ImageTrace(path, opts, detect);
            status == t.status &&
            disk.fs == AfterWrites(old(disk.fs), outDir, t.writes) &&
            disk.files == Stored(old(disk.files), outDir, t.writes)
  {
    var detection := detect(DetectRequest(path, opts));
    if detection.DetectionFailed? {
      return Aborted;
    }
    var name := Name(path);
    status := WriteFaces(disk, Stem(name), Suffix(name), detection.faces, outDir);
  }

  /**
   * The loop of main over the images one argument yields: detect, then write
   * the faces, until the detector or normalize_face raises.
   */
  method WriteImages(disk: Disk, paths: seq<Path>, outDir: Path, opts: Options,
                     detect: ExtractRequest -> Detection) returns (status: Status)
    modifies disk
    ensures var t := ImagesTrace(paths, opts, detect);
            status == t.status &&
            disk.fs == AfterWrites(old(disk.fs), outDir, t.writes) &&
            disk.files == Stored(old(disk.files), outDir, t.writes)
  {
    ghost var written: seq<Crop> := [];
    var j := 0;
    while j < |paths|
      invariant 0 <= j <= |paths|
      invariant ImagesTrace(paths[..j], opts, detect) == Trace(written, Completed)
      invariant disk.fs == AfterWrites(old(disk.fs), outDir, written)
      invariant disk.files == Stored(old(disk.files), outDir, written)
    {
      ImagesTraceStep(paths, j, written, opts, detect);
      var s := ProcessImage(disk, paths[j], outDir, opts, detect);
      ghost var t := ImageTrace(paths[j], opts, detect);
      AfterWritesAppend(old(disk.fs), outDir, written, t.writes);
      StoredAppend(old(disk.files), outDir, written, t.writes);
      written := written + t.writes;
      if s == Aborted {
        ImagesTraceAbortedStays(paths, j + 1, opts, detect);
        assert ImagesTrace(paths, opts, detect) == Trace(written, Aborted);
        return Aborted;
      }
      j := j + 1;
    }
    assert paths[..j] == paths;
    assert ImagesTrace(paths, opts, detect) == Trace(written, Completed);
    status := Completed;
  }

  /**
   * main: create the output directory, then for every enumerated image write
   * one crop per detected face. When mkdir raises, nothing is processed. A
   * later exception ends the run; the crops written until then stay, and files
   * already in the directory are never removed.
   */
  method Extract(disk: Disk, args: seq<Path>, outDir: Path, opts: Options,
                 detect: ExtractRequest -> Detection) returns (status: Status)
    modifies disk
    ensures MakeDirRaises(old(disk.fs), outDir) ==>
              status == Aborted && disk.fs == old(disk.fs) && disk.files == old(disk.files)
    ensures !MakeDirRaises(old(disk.fs), outDir) ==>
              var fs0 := MakeDir(old(disk.fs), outDir);
              var t := RunTrace(fs0, outDir, args, opts, detect);
              status == t.status &&
              disk.fs == AfterWrites(fs0, outDir, t.writes) &&
              disk.files == Stored(old(disk.files), outDir, t.writes)
  {
    status := disk.MakeDirs(outDir);
    if status == Aborted {
      return;
    }
    ghost var fs0 := disk.fs;
    ghost var files0 := disk.files;
    ghost var written: seq<Crop> := [];
    var i := 0;
    while i < |args|
      invariant 0 <= i <= |args|
      invariant fs0 == MakeDir(old(disk.fs), outDir) && files0 == old(disk.files)
      invariant RunTrace(fs0, outDir, args[..i], opts, detect) == Trace(written, Completed)
      invariant disk.fs == AfterWrites(fs0, outDir, written)
      invariant disk.files == Stored(files0, outDir, written)
    {
      RunTraceStep(fs0, outDir, args, i, written, opts, detect);
      var paths := Expand(disk.fs, args[i]);
      var s := WriteImages(disk, paths, outDir, opts, detect);
      ghost var t := ImagesTrace(paths, opts, detect);
      AfterWritesAppend(fs0, outDir, written, t.writes);
      StoredAppend(files0, outDir, written, t.writes);
      written := written + t.writes;
      if s == Aborted {
        RunTraceAbortedStays(fs0, outDir, args, i + 1, opts, detect);
        assert RunTrace(fs0, outDir, args, opts, detect) == Trace(written, Aborted);
        return Aborted;
      }
      i := i + 1;
    }
    assert args[..i] == args;
    assert RunTrace(fs0, outDir, args, opts, detect) == Trace(written, Completed);
    status := Completed;
  }
}
