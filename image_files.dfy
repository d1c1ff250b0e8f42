/**
 * The set of file suffixes both stages treat as images. The extractor and the
 * embedder each declare the same set (IMAGE_EXTENSIONS); it is defined once here.
 */
module ImageFiles {
  import opened Pathlib

  const ImageExtensions: set<string> := {".jpg", ".jpeg", ".png", ".bmp", ".tiff", ".tif"}

  /** `path.suffix.lower() in IMAGE_EXTENSIONS`. */
  predicate IsImageFile(p: Path) {
    Lower(Suffix(Name(p))) in ImageExtensions
  }

  /** An image file always has a suffix; a name without a dot is never an image. */
  lemma ImageFileHasSuffix(p: Path)
    requires IsImageFile(p)
    ensures Suffix(Name(p)) != []
    ensures '.' in Name(p)
  {
    if '.' !in Name(p) {
      NoDotNoSuffix(Name(p));
    }
  }
}
