# face_pipeline in Dafny

A model of the two scripts of the face pipeline.

- **The extractor** (`scripts/face_pipeline/extract_faces.py`):
  - enumerates the images named on the command line, expanding each directory into its image files in sorted order;
  - asks the RetinaFace detector for the faces of every image;
  - brings each face's pixels to 8 bits;
  - writes the face to the output directory as `{stem}_face{idx}_x{x}_y{y}_w{w}_h{h}{suffix}`.
- **The embedder** (`scripts/face_pipeline/arcface_embeddings.py`):
  - walks the sorted entries of a crops directory and skips those that are not images;
  - asks the ArcFace recogniser for each remaining image;
  - keeps the first embedding of every non-empty answer as `{"image_path", "embedding"}`;
  - writes the list as one JSON document.

The detector and the recogniser are function parameters. Each receives the request record the script builds, with every constant it passes. Each returns its answer, or a failure that stands for a raised exception. Either script stops at such a failure.

The file system is a class (`Disk`) holding directory listings and the files written. The loops are methods over it. Each method is proved to compute a reference function: `FacesTrace`, `ImagesTrace`, `RunTrace` or `RunCollect`. The properties of the scripts are lemmas about those functions.

Modules:

| Module | Contents |
|---|---|
| `Outcomes` | `Option` and `Status` (completed, or aborted by an exception) |
| `Decimal` | `str()` of an int and its inverse |
| `Pathlib` | the parts of pathlib the scripts use: `name`, `stem`, `suffix`, `parent`, `/`, ASCII `lower()`, the ordering `sorted` applies to sibling paths, and a directory tree |
| `ImageFiles` | `IMAGE_EXTENSIONS`, declared identically in both scripts, defined once |
| `ExtractFaces` | the extractor |
| `ArcfaceEmbeddings` | the embedder |

`normalize_face` clips to [0, 255] only when the array's maximum is at most 1.0, so no [0, 255] bound holds in the other branch.

## Model

| member | source | states |
|---|---|---|
| ImageFiles.ImageFileHasSuffix | scripts/face_pipeline/extract_faces.py:14 | a path counts as an image only if its name has a non-empty suffix (a dot), because every member of IMAGE_EXTENSIONS starts with a dot |
| Pathlib.StemSuffixSplit | scripts/face_pipeline/extract_faces.py:83-84 | stem + suffix is the name; a suffix is a dot followed by at least one character with no further dot, and it leaves a non-empty stem |
| Pathlib.SuffixAtLastDot | scripts/face_pipeline/extract_faces.py:21 | the suffix and stem are fixed by the last dot of the name; a dot that starts or ends the name gives no suffix |
| Pathlib.NoDotNoSuffix | scripts/face_pipeline/extract_faces.py:21 | a name without a dot has no suffix and is its own stem |
| Pathlib.NameHasNoSeparator | scripts/face_pipeline/extract_faces.py:83 | a path's name never contains a separator |
| Pathlib.RFindIsLast | scripts/face_pipeline/extract_faces.py:21 | the position the suffix is cut at is the last dot: no dot follows it |
| Pathlib.Lower | scripts/face_pipeline/extract_faces.py:21 | lower() keeps the length and lower-cases each ASCII letter in place |
| Pathlib.NameOfChild | scripts/face_pipeline/extract_faces.py:20 | a path iterdir() yields for an entry has that entry as its name |
| Pathlib.ParentChild | scripts/face_pipeline/arcface_embeddings.py:59-60 | a normalised path with a name is its parent joined with that name |
| Pathlib.SortNames | scripts/face_pipeline/extract_faces.py:20 | sorting yields an ascending permutation of the names |
| Pathlib.SortedUnique | scripts/face_pipeline/extract_faces.py:20 | two ascending permutations of the same names are equal, so the model's sort agrees with Python's sorted |
| Pathlib.BelowTotal | scripts/face_pipeline/extract_faces.py:20 | Python's string order is total |
| Pathlib.BelowAntisymmetric | scripts/face_pipeline/extract_faces.py:20 | two strings each below the other are equal |
| Pathlib.BelowTransitive | scripts/face_pipeline/extract_faces.py:20 | Python's string order is transitive |
| Pathlib.BelowCommonPrefix | scripts/face_pipeline/extract_faces.py:20 | sibling paths compare as their names do, because they share their directory prefix |
| Pathlib.SortedChildrenSpec | scripts/face_pipeline/extract_faces.py:20 | sorted(dir.iterdir()) is ascending, has one path per entry, and holds exactly the directory's children |
| Pathlib.MakeDir | scripts/face_pipeline/extract_faces.py:67 | the tree after a mkdir(exist_ok=True) that does not raise (MakeDirRaises covers the raising case): it leaves an existing directory and the whole tree as they are. Otherwise it creates the directory empty and creates no other. When the path has a name and its parent exists, the parent then lists exactly its old entries plus the new name. Every other directory's listing is untouched |
| Pathlib.NewDir | scripts/face_pipeline/extract_faces.py:67 | a new directory starts empty; the parent, when it exists, differs from the new directory and the name is non-empty, lists exactly its old entries plus the name; no other listing changes |
| Pathlib.MakeDirSucceeds | scripts/face_pipeline/extract_faces.py:67 | exist_ok forgives an existing directory, and a name still free in an existing parent directory can be created: mkdir does not raise on either |
| Pathlib.FileInTheWay | scripts/face_pipeline/extract_faces.py:67 | with `crops` a regular file, mkdir("crops") raises (FileExistsError) and so does mkdir("crops/out") (NotADirectoryError) |
| Pathlib.AddEntry | scripts/face_pipeline/extract_faces.py:87 | creating a file makes its directory list exactly its old entries plus that name (adding at most one entry, none if it was there), and changes no other directory |
| Pathlib.ChildInjective | scripts/face_pipeline/extract_faces.py:86 | out_dir / name gives different paths for different names |
| Decimal.ParseIntToString | scripts/face_pipeline/extract_faces.py:83-84 | reading back the text str(n) puts into the crop name gives n again |
| Decimal.IntToStringInjective | scripts/face_pipeline/extract_faces.py:83-84 | different integers are printed differently |
| Decimal.IntToStringForm | scripts/face_pipeline/extract_faces.py:83-84 | str(n) is a minus sign exactly when n is negative, followed by digits |
| ExtractFaces.ImagesOnlySpec | scripts/face_pipeline/extract_faces.py:20-22 | the filter keeps exactly the paths whose lower-cased suffix is an image extension, and keeps a sorted list sorted |
| ExtractFaces.ExpandDirectory | scripts/face_pipeline/extract_faces.py:19-22 | a directory yields, in ascending order, exactly its children whose lower-cased suffix is in IMAGE_EXTENSIONS |
| ExtractFaces.FileArgumentPassesThrough | scripts/face_pipeline/extract_faces.py:23-24 | a non-directory argument is yielded exactly once, in its place and unchanged, whatever its suffix |
| ExtractFaces.IterImagePathsAppend | scripts/face_pipeline/extract_faces.py:18-24 | the enumeration of a + b is the enumeration of a followed by that of b (argument order is kept) |
| ExtractFaces.IterImagePathsMembers | scripts/face_pipeline/extract_faces.py:17-24 | a path is enumerated if and only if it is a non-directory argument, or an image child of a directory argument |
| ExtractFaces.NormalizeFace | scripts/face_pipeline/extract_faces.py:27-32 | normalize_face raises (None) exactly on an empty non-8-bit array, where max() has nothing to return |
| ExtractFaces.NormalizeFaceSpec | scripts/face_pipeline/extract_faces.py:27-32 | an 8-bit array comes back unchanged; otherwise one byte per value. With max ≤ 1 each byte is the truncation of clip(255·v, 0, 255), so it lies in [0, 255]. With max > 1 each byte is the truncation of v, and no clip is applied |
| ExtractFaces.UnitIntervalScaled | scripts/face_pipeline/extract_faces.py:30-32 | values in [0, 1] become floor(255·v); the clip never cuts them |
| ExtractFaces.MaxOf | scripts/face_pipeline/extract_faces.py:30 | max() is an element of the array that no element exceeds |
| ExtractFaces.Trunc | scripts/face_pipeline/extract_faces.py:32 | the cast truncates toward zero |
| ExtractFaces.CropNameEnds | scripts/face_pipeline/extract_faces.py:82-85 | a crop name starts with the source's stem and ends with the source's suffix |
| ExtractFaces.SplitFieldOf | scripts/face_pipeline/extract_faces.py:83-84 | each `_{tag}{n}` field can be split off the right end of the name, giving back n |
| ExtractFaces.DecodeCropNameRoundTrip | scripts/face_pipeline/extract_faces.py:82-85 | the crop name decodes back to the stem, the face index and the bounding box |
| ExtractFaces.CropNameInjective | scripts/face_pipeline/extract_faces.py:82-85 | for one stem and suffix, different indices or boxes give different names |
| ExtractFaces.CropNameSuffix | scripts/face_pipeline/extract_faces.py:84 | a crop name ending in a pathlib-shaped suffix has that suffix as its own |
| ExtractFaces.CropKeepsSuffix | scripts/face_pipeline/extract_faces.py:84-87 | when the source has a suffix, a crop's own pathlib suffix is the source's, so cv2.imwrite writes it in the source's format (a suffixless source such as `photo.` gives crops whose suffix is their last name field) |
| ExtractFaces.ThenAssociative | scripts/face_pipeline/extract_faces.py:69-87 | running parts of the loop in sequence groups either way |
| ExtractFaces.FacesTraceSpec | scripts/face_pipeline/extract_faces.py:79-87 | the k-th write of an image (from 1, in detector order) is the crop of face k with its own box. A completed image writes one crop per face. An aborted one stops at the first face normalize_face rejects |
| ExtractFaces.FacesTraceCompletes | scripts/face_pipeline/extract_faces.py:79-80 | all of an image's faces are written if and only if every face can be normalised |
| ExtractFaces.FileNameInjective | scripts/face_pipeline/extract_faces.py:82-86 | crops of one image with the same file name have the same index and box |
| ExtractFaces.CropNamesDistinct | scripts/face_pipeline/extract_faces.py:79-86 | two faces of one image never get the same file name |
| ExtractFaces.ImagesTraceAppend | scripts/face_pipeline/extract_faces.py:69 | processing the images a + b is processing a and then, unless it raised, b |
| ExtractFaces.NoFaceImageWritesNothing | scripts/face_pipeline/extract_faces.py:69-79 | an image with no detected face writes nothing and the run carries on as if the image were absent |
| ExtractFaces.DetectionFailureEndsRun | scripts/face_pipeline/extract_faces.py:70-78 | when the detector raises for an image, the run ends there and no later image is written |
| ExtractFaces.FacesTraceAbortedStays | scripts/face_pipeline/extract_faces.py:79-80 | once normalize_face has raised, later faces change nothing |
| ExtractFaces.ImagesTraceAbortedStays | scripts/face_pipeline/extract_faces.py:69-80 | once an image has raised, later images change nothing |
| ExtractFaces.RunTraceAbortedStays | scripts/face_pipeline/extract_faces.py:69 | once the run has raised, later arguments change nothing |
| ExtractFaces.AfterWrites | scripts/face_pipeline/extract_faces.py:86-87 | writing crops into one directory leaves every other directory's listing as it was |
| ExtractFaces.AfterWritesListing | scripts/face_pipeline/extract_faces.py:86-87 | after the writes, the output directory lists exactly its old entries and the names of the crops written, which a later directory argument naming it then sees |
| ExtractFaces.StoredSpec | scripts/face_pipeline/extract_faces.py:86-87 | after the writes, the files are the old ones plus one per crop path. A file no crop hits keeps its contents. Every crop that no later crop overwrites holds its own pixels |
| ExtractFaces.StoredLastWrite | scripts/face_pipeline/extract_faces.py:86-87 | a crop that no later crop writes under the same name is on disk at out_dir / name with its own pixels |
| ExtractFaces.FaceStored | scripts/face_pipeline/extract_faces.py:79-87 | for an image that completed, face k+1 is on disk at out_dir / its crop name (stem, k+1, its box, suffix) holding normalize_face of its pixels |
| ExtractFaces.FacesStored | scripts/face_pipeline/extract_faces.py:79-87 | for an image that completed, every face is on disk, one file per face under its own crop name, holding normalize_face of its pixels; no face's file is overwritten by another's |
| ExtractFaces.NewOutputDirEnumerated | scripts/face_pipeline/extract_faces.py:67-69 | the output directory is made before the arguments are expanded, so when its parent is an argument and its name has an image suffix it is itself yielded as an image path |
| ExtractFaces.ExpandUnaffected | scripts/face_pipeline/extract_faces.py:69 | writing crops does not change what an argument other than the output directory expands to |
| ExtractFaces.RunMatchesIterImagePaths | scripts/face_pipeline/extract_faces.py:69 | when the output directory is not an argument, the lazy run equals processing the images of iter_image_paths, in order |
| ExtractFaces.Disk.MakeDirs | scripts/face_pipeline/extract_faces.py:67 | raises (Aborted) exactly when the path or its parent is a regular file, and then nothing changes; otherwise the tree becomes MakeDir's: the output directory is kept, or created empty and listed in its existing parent. No file changes |
| ExtractFaces.Disk.WriteImage | scripts/face_pipeline/extract_faces.py:86-87 | cv2.imwrite lists the file in its directory and creates or replaces its contents |
| ExtractFaces.WriteFaces | scripts/face_pipeline/extract_faces.py:79-87 | the faces loop writes exactly the crops of FacesTrace, in order, and reports whether it was cut short |
| ExtractFaces.ProcessImage | scripts/face_pipeline/extract_faces.py:70-87 | one image: detection, then its faces, as ImageTrace describes |
| ExtractFaces.WriteImages | scripts/face_pipeline/extract_faces.py:69-87 | the loop over one argument's images writes exactly the crops of ImagesTrace |
| ExtractFaces.Extract | scripts/face_pipeline/extract_faces.py:64-87 | when mkdir raises, main stops before any image with the disk unchanged. Otherwise it creates the output directory, then writes exactly the crops of RunTrace. Files already there are only ever replaced, never removed |
| ArcfaceEmbeddings.QualifyingEntries | scripts/face_pipeline/arcface_embeddings.py:42-51 | at most one qualifying entry per directory entry, and each qualifies |
| ArcfaceEmbeddings.RecordsSpec | scripts/face_pipeline/arcface_embeddings.py:40-57 | one record per qualifying entry and no other, so no more records than entries; sorted entries give records sorted by image_path |
| ArcfaceEmbeddings.CollectAborts | scripts/face_pipeline/arcface_embeddings.py:44-49 | the loop stops if and only if the recogniser fails on some entry |
| ArcfaceEmbeddings.CollectRecords | scripts/face_pipeline/arcface_embeddings.py:52-56 | a loop that does not stop returns exactly the reference records: the entry's path string and its first embedding, per qualifying entry, in entry order |
| ArcfaceEmbeddings.CollectPrefix | scripts/face_pipeline/arcface_embeddings.py:40-57 | `results` only grows by appending: the records after k entries begin the final list |
| ArcfaceEmbeddings.CollectAbortedStays | scripts/face_pipeline/arcface_embeddings.py:44-49 | once the recogniser has failed, later entries change nothing |
| ArcfaceEmbeddings.CollectSameAnswers | scripts/face_pipeline/arcface_embeddings.py:41-57 | the outcome depends only on what the loop learns about each entry |
| ArcfaceEmbeddings.SkippedEntry | scripts/face_pipeline/arcface_embeddings.py:42-51 | a skipped entry contributes nothing: the outcome is that of the list without it |
| ArcfaceEmbeddings.NonImageSkipped | scripts/face_pipeline/arcface_embeddings.py:42-43 | a non-image entry contributes no record and never stops the loop |
| ArcfaceEmbeddings.EmptyAnswerSkipped | scripts/face_pipeline/arcface_embeddings.py:50-51 | an image with an empty answer contributes no record and the loop goes on |
| ArcfaceEmbeddings.OnlyImagesAsked | scripts/face_pipeline/arcface_embeddings.py:41-49 | only image entries reach the recogniser: two recognisers that agree on them give the same outcome |
| ArcfaceEmbeddings.RunCollectSpec | scripts/face_pipeline/arcface_embeddings.py:40-57 | a faces_dir that is not a directory raises. Otherwise the run stops if and only if the recogniser fails on an image entry. A completed run gives the reference records, sorted by image_path |
| ArcfaceEmbeddings.Visit | scripts/face_pipeline/arcface_embeddings.py:42-57 | one pass of the loop body is one Step on what the script learns about the entry |
| ArcfaceEmbeddings.CollectEmbeddings | scripts/face_pipeline/arcface_embeddings.py:40-57 | the loop over sorted(faces_dir.iterdir()) computes RunCollect |
| ArcfaceEmbeddings.Disk.WriteDocument | scripts/face_pipeline/arcface_embeddings.py:59-61 | when the parent's mkdir raises, nothing changes; when the output path is a directory, open raises after the mkdir and no document is written; otherwise the parent directory is made and lists the output, and the document at the output path is replaced by the records |
| ArcfaceEmbeddings.Embed | scripts/face_pipeline/arcface_embeddings.py:35-61 | the run raises if and only if the collection raises, the mkdir raises, or open meets a directory. No document is written then, and the tree is unchanged unless only open raised (the mkdir's directory stays). A completed run writes exactly the collected records to the output path and touches no other document |
| ArcfaceEmbeddings.DocumentFound | scripts/face_pipeline/arcface_embeddings.py:59-60 | after the write, the output's parent directory exists and lists the output under its own name |

## Left out

- DeepFace.extract_faces and DeepFace.represent are function parameters. RetinaFace detection, alignment, box expansion and ArcFace inference are not modelled.
- The pixels the detector sees are not modelled: it receives only the request record.
- cv2.imwrite's image encoding and json.dump's formatting (indent, float text) are not modelled. A written file holds the pixel array; a document holds the record list.
- A failure to open or write an output file is modelled only for open() on a directory (ArcfaceEmbeddings.OpenRaises); permission errors, a full disk and cv2.imwrite refusing a path are not.
- argparse (`parse_args`) is not modelled. The options that reach the detector and the recogniser are parameters.
- Exceptions are modelled only as a failure that ends a run. Besides the detector's and the recogniser's failures, the modelled code raises in four places: normalize_face on an empty float array; faces_dir.iterdir() when faces_dir is not a directory (RunCollect); mkdir when the path or its parent is a regular file (MakeDirRaises); and the embedder's open() when the output path is a directory (OpenRaises).
- Floating point is modelled as `real`.
- ExtractFaces.NormalizeFace: uint8's wrap-around when casting values outside [0, 255] (possible only when max > 1.0) is not modelled. The cast is stated as truncation toward zero.
- ExtractFaces.NormalizeFaceSpec: weaker than numpy for the same reason; in the max > 1.0 branch each byte is stated as the truncated value, not reduced modulo 256.
- Pathlib.Lower: lower() is modelled on ASCII letters only.
- Pathlib.MakeDir: parents=True is not modelled. Only the named directory is created; missing ancestors are not created, and a new directory appears in its parent's listing only when that parent already exists. Pathlib.MakeDirRaises detects a regular file at the path or at its parent only, not further up.
- A path is pathlib's printed form, already normalised; parsing and normalising arbitrary strings is not modelled.
- Windows paths and case-insensitive file systems are not modelled.
- The file system is keyed by path text. Two spellings of one directory (relative and absolute, or through `..`) are two different directories in the model. So the condition `outDir !in args` of ExtractFaces.RunMatchesIterImagePaths holds only per spelling: an argument that names the output directory another way is not seen to alias it.
- A file that already exists under a crop's name is replaced in the model. The file system is not modelled as possibly refusing the write (for example, when a directory has that name).
- Pathlib.Suffix follows the rule in which a name ending in a dot has no suffix.
- Symbolic links, permissions and concurrent changes to the directories are not modelled.
