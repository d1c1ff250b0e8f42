/**
 * The embedder (scripts/face_pipeline/arcface_embeddings.py): list the crops
 * directory in sorted order, skip entries that are not images, ask the ArcFace
 * recogniser for each image's representations, keep the first embedding of
 * every non-empty answer, and write the records as one JSON document.
 *
 * The recogniser is a function parameter: it receives the request the script
 * builds and returns the representations, possibly none, or fails, which is how
 * a raised exception (strict mode finding no face, an unreadable file) is
 * represented. Such a failure ends the run before anything is written.
 *
 * The loop is specified in two layers: Collect runs over the entries given what
 * the loop learns about each one (an `ask` function: nothing for a skipped
 * non-image, otherwise the recogniser's answer), and Ask is the `ask` of the
 * script. The properties of the loop are proved for every `ask`, and those of
 * Ask separately.
 */
module ArcfaceEmbeddings {
  import opened Outcomes
  import opened Pathlib
  import opened ImageFiles

  /** The arguments of one DeepFace.represent call. */
  datatype RepresentRequest = RepresentRequest(
    imgPath: string, modelName: string, detectorBackend: string, enforceDetection: bool)

  /** One entry of represent's answer; only its "embedding" is read. */
  datatype Representation = Representation(embedding: seq<real>)

  /** The recogniser's answer, or a raised exception. */
  datatype Answer = Represented(reps: seq<Representation>) | RepresentFailed

  /** One element of the JSON list: {"image_path": ..., "embedding": ...}. */
  datatype EmbeddingRecord = EmbeddingRecord(imagePath: string, embedding: seq<real>)

  /** The records collected, and whether the loop reached its end. */
  datatype Collected = Collected(records: seq<EmbeddingRecord>, status: Status)

  /** The call made for one entry: ArcFace, detection skipped, the strictness flag passed on. */
  function RepresentCall(path: Path, enforce: bool): RepresentRequest {
    RepresentRequest(str(path), "ArcFace", "skip", enforce)
  }

  /**
   * What the script learns about an entry: nothing when its lower-cased suffix
   * is not an image extension (`continue` before the call), otherwise the
   * recogniser's answer for it.
   */
  function Ask(enforce: bool, represent: RepresentRequest -> Answer): Path -> Option<Answer> {
    p => if IsImageFile(p) then Some(represent(RepresentCall(p, enforce))) else None
  }

  /** Only image entries reach the recogniser, each with the script's fixed request. */
  lemma AskSpec(enforce: bool, represent: RepresentRequest -> Answer, p: Path)
    ensures Ask(enforce, represent)(p).None? <==> !IsImageFile(p)
    ensures IsImageFile(p) ==> Ask(enforce, represent)(p) == Some(represent(RepresentCall(p, enforce)))
  {
  }

  /** What one pass of the loop body does to `results` for `path`, given what it learnt. */
  function Step(records: seq<EmbeddingRecord>, path: Path, answer: Option<Answer>): Collected {
    match answer
    case None => Collected(records, Completed)
    case Some(RepresentFailed) => Collected(records, Aborted)
    case Some(Represented(reps)) =>
      if reps == [] then Collected(records, Completed)
      else Collected(records + [EmbeddingRecord(str(path), reps[0].embedding)], Completed)
  }

  /** The loop over `entries`, in order, from an empty `results`. */
  function Collect(entries: seq<Path>, ask: Path -> Option<Answer>): Collected
    decreases |entries|
  {
    if entries == [] then Collected([], Completed)
    else
      var c := Collect(entries[..|entries| - 1], ask);
      if c.status == Aborted then c else Step(c.records, entries[|entries| - 1], ask(entries[|entries| - 1]))
  }

  /** The whole collection: `sorted(faces_dir.iterdir())` raises when faces_dir is not a directory. */
  function RunCollect(fs: FileSystem, facesDir: Path, enforce: bool,
                      represent: RepresentRequest -> Answer): Collected
  {
    if !IsDir(fs, facesDir) then Collected([], Aborted)
    else Collect(SortedChildren(fs, facesDir), Ask(enforce, represent))
  }

  /** The loop over s + [x]: the loop over s, then, unless it stopped, the step for x. */
  lemma CollectSnoc(s: seq<Path>, x: Path, ask: Path -> Option<Answer>)
    ensures var c := Collect(s, ask);
            Collect(s + [x], ask) == if c.status == Aborted then c else Step(c.records, x, ask(x))
  {
    assert (s + [x])[..|s|] == s;
  }

  /** One more entry of the same list: the loop so far, then that entry's step. */
  lemma CollectNext(entries: seq<Path>, i: nat, ask: Path -> Option<Answer>)
    requires i < |entries|
    requires Collect(entries[..i], ask).status == Completed
    ensures Collect(entries[..i + 1], ask) == Step(Collect(entries[..i], ask).records, entries[i], ask(entries[i]))
  {
    assert entries[..i + 1][..i] == entries[..i];
  }

  // ---------------------------------------------------------------------------
  // A reference definition of the records

  /** An entry that yields a record: an answer with at least one representation. */
  predicate Qualifies(path: Path, ask: Path -> Option<Answer>) {
    ask(path).Some? && ask(path).value.Represented? && ask(path).value.reps != []
  }

  /** An entry that stops the loop: the recogniser failed on it. */
  predicate Fails(path: Path, ask: Path -> Option<Answer>) {
    ask(path) == Some(RepresentFailed)
  }

  /** The record of a qualifying entry: its path string and its first embedding. */
  function RecordOf(path: Path, ask: Path -> Option<Answer>): EmbeddingRecord
    requires Qualifies(path, ask)
  {
    EmbeddingRecord(str(path), ask(path).value.reps[0].embedding)
  }

  /** The qualifying entries, in entry order. */
  function QualifyingEntries(entries: seq<Path>, ask: Path -> Option<Answer>): (q: seq<Path>)
    ensures |q| <= |entries|
    ensures forall p :: p in q ==> Qualifies(p, ask)
    decreases |entries|
  {
    if entries == [] then []
    else (if Qualifies(entries[0], ask) then [entries[0]] else []) + QualifyingEntries(entries[1..], ask)
  }

  /** The record of every qualifying entry, in entry order. */
  function Records(entries: seq<Path>, ask: Path -> Option<Answer>): seq<EmbeddingRecord> {
    var q := QualifyingEntries(entries, ask);
    seq(|q|, i requires 0 <= i < |q| => RecordOf(q[i], ask))
  }

  lemma {:induction false} QualifyingAppend(a: seq<Path>, b: seq<Path>, ask: Path -> Option<Answer>)
    ensures QualifyingEntries(a + b, ask) == QualifyingEntries(a, ask) + QualifyingEntries(b, ask)
    decreases |a|
  {
    if a == [] {
      assert a + b == b;
    } else {
      assert (a + b)[1..] == a[1..] + b;
      QualifyingAppend(a[1..], b, ask);
    }
  }

  /** A qualifying entry is exactly an entry of the list that qualifies. */
  lemma {:induction false} QualifyingMembers(entries: seq<Path>, ask: Path -> Option<Answer>)
    ensures forall p :: p in QualifyingEntries(entries, ask) <==> p in entries && Qualifies(p, ask)
    decreases |entries|
  {
    if entries != [] {
      QualifyingMembers(entries[1..], ask);
      assert entries == [entries[0]] + entries[1..];
    }
  }

  /** Filtering a sorted list keeps it sorted. */
  lemma {:induction false} QualifyingSorted(entries: seq<Path>, ask: Path -> Option<Answer>)
    requires Sorted(entries)
    ensures Sorted(QualifyingEntries(entries, ask))
    decreases |entries|
  {
    if entries != [] {
      SortedTail(entries);
      QualifyingSorted(entries[1..], ask);
      if Qualifies(entries[0], ask) {
        QualifyingMembers(entries[1..], ask);
        SortedHeadBelowRest(entries);
        SortedCons(entries[0], QualifyingEntries(entries[1..], ask));
      }
    }
  }

  /** The reference records of s + [x]: those of s, then x's record if x qualifies. */
  lemma RecordsSnoc(s: seq<Path>, x: Path, ask: Path -> Option<Answer>)
    ensures Records(s + [x], ask) ==
            Records(s, ask) + (if Qualifies(x, ask) then [RecordOf(x, ask)] else [])
  {
    QualifyingAppend(s, [x], ask);
    assert QualifyingEntries([x], ask) == (if Qualifies(x, ask) then [x] else []) + QualifyingEntries([], ask);
  }

  /**
   * Qualifying entries each give a record, in order, and nothing else gives one;
   * so there are at most as many records as entries, and a sorted list of
   * entries gives records sorted by path.
   */
  lemma RecordsSpec(entries: seq<Path>, ask: Path -> Option<Answer>)
    ensures |Records(entries, ask)| == |QualifyingEntries(entries, ask)| <= |entries|
    ensures forall r :: r in Records(entries, ask) <==>
              exists p :: p in entries && Qualifies(p, ask) && r == RecordOf(p, ask)
    ensures Sorted(entries) ==>
              var rs := Records(entries, ask);
              forall i, j :: 0 <= i < j < |rs| ==> Below(rs[i].imagePath, rs[j].imagePath)
  {
    var q := QualifyingEntries(entries, ask);
    var rs := Records(entries, ask);
    QualifyingMembers(entries, ask);
    forall r | r in rs
      ensures exists p :: p in entries && Qualifies(p, ask) && r == RecordOf(p, ask)
    {
      var i :| 0 <= i < |rs| && rs[i] == r;
      assert q[i] in q;
    }
    forall p | p in entries && Qualifies(p, ask)
      ensures RecordOf(p, ask) in rs
    {
      var i :| 0 <= i < |q| && q[i] == p;
      assert rs[i] == RecordOf(p, ask);
    }
    if Sorted(entries) {
      QualifyingSorted(entries, ask);
      forall i, j | 0 <= i < j < |rs|
        ensures Below(rs[i].imagePath, rs[j].imagePath)
      {
        assert rs[i].imagePath == q[i] && rs[j].imagePath == q[j];
      }
    }
  }

  // ---------------------------------------------------------------------------
  // What the loop promises

  /** The loop stops exactly when the recogniser fails on some entry. */
  lemma {:induction false} CollectAborts(entries: seq<Path>, ask: Path -> Option<Answer>)
    ensures Collect(entries, ask).status == Aborted <==> exists i :: 0 <= i < |entries| && Fails(entries[i], ask)
    decreases |entries|
  {
    if entries != [] {
      var n := |entries|;
      var init, last := entries[..n - 1], entries[n - 1];
      CollectAborts(init, ask);
      assert entries == init + [last];
      CollectSnoc(init, last, ask);
      if exists i :: 0 <= i < n - 1 && Fails(init[i], ask) {
        var i :| 0 <= i < n - 1 && Fails(init[i], ask);
        assert entries[i] == init[i];
      }
      if exists i :: 0 <= i < n && Fails(entries[i], ask) {
        var i :| 0 <= i < n && Fails(entries[i], ask);
        if i < n - 1 {
          assert init[i] == entries[i];
        }
      }
    }
  }

  /**
   * When the loop does not stop, its records are those of the reference
   * definition: one per qualifying entry, in entry order.
   */
  lemma {:induction false} CollectRecords(entries: seq<Path>, ask: Path -> Option<Answer>)
    ensures Collect(entries, ask).status == Completed ==> Collect(entries, ask).records == Records(entries, ask)
    decreases |entries|
  {
    if entries != [] {
      var n := |entries|;
      var init, last := entries[..n - 1], entries[n - 1];
      CollectRecords(init, ask);
      assert entries == init + [last];
      CollectSnoc(init, last, ask);
      RecordsSnoc(init, last, ask);
    }
  }

  lemma PrefixTransitive(a: seq<EmbeddingRecord>, b: seq<EmbeddingRecord>, c: seq<EmbeddingRecord>)
    requires a <= b && b <= c
    ensures a <= c
  {
    assert c[..|a|] == b[..|a|];
  }

  /** A step keeps the records it is given at the front. */
  lemma StepExtends(records: seq<EmbeddingRecord>, path: Path, answer: Option<Answer>)
    ensures records <= Step(records, path, answer).records
  {
  }

  /** `results` only grows by appending: the records after the first k entries begin the final list. */
  lemma {:induction false} CollectPrefix(entries: seq<Path>, k: nat, ask: Path -> Option<Answer>)
    requires k <= |entries|
    ensures Collect(entries[..k], ask).records <= Collect(entries, ask).records
    decreases |entries| - k
  {
    if k < |entries| {
      CollectPrefix(entries, k + 1, ask);
      var c := Collect(entries[..k], ask);
      var c1 := Collect(entries[..k + 1], ask);
      if c.status == Completed {
        CollectNext(entries, k, ask);
        StepExtends(c.records, entries[k], ask(entries[k]));
      } else {
        assert entries[..k + 1][..k] == entries[..k];
      }
      assert c.records <= c1.records;
      PrefixTransitive(c.records, c1.records, Collect(entries, ask).records);
    } else {
      assert entries[..k] == entries;
    }
  }

  /** Once the loop has stopped, later entries change nothing. */
  lemma {:induction false} CollectAbortedStays(entries: seq<Path>, k: nat, ask: Path -> Option<Answer>)
    requires k <= |entries|
    requires Collect(entries[..k], ask).status == Aborted
    ensures Collect(entries, ask) == Collect(entries[..k], ask)
    decreases |entries| - k
  {
    if k < |entries| {
      assert entries[..k + 1][..k] == entries[..k];
      CollectAbortedStays(entries, k + 1, ask);
    } else {
      assert entries[..k] == entries;
    }
  }

  /** The outcome depends on nothing but what the loop learns about each entry. */
  lemma {:induction false} CollectSameAnswers(entries: seq<Path>, a1: Path -> Option<Answer>, a2: Path -> Option<Answer>)
    requires forall i :: 0 <= i < |entries| ==> a1(entries[i]) == a2(entries[i])
    ensures Collect(entries, a1) == Collect(entries, a2)
    decreases |entries|
  {
    if entries != [] {
      var init := entries[..|entries| - 1];
      forall i | 0 <= i < |init|
        ensures a1(init[i]) == a2(init[i])
      {
        assert init[i] == entries[i];
      }
      CollectSameAnswers(init, a1, a2);
    }
  }

  /**
   * An entry the loop skips (nothing learnt, or an empty answer) contributes no
   * record and never stops the loop: the outcome is that of the list without it.
   */
  lemma {:induction false} SkippedEntry(before: seq<Path>, path: Path, after: seq<Path>, ask: Path -> Option<Answer>)
    requires ask(path) == None || ask(path) == Some(Represented([]))
    ensures Collect(before + [path] + after, ask) == Collect(before + after, ask)
    decreases |after|
  {
    if after == [] {
      assert before + [path] + after == before + [path];
      assert before + after == before;
      CollectSnoc(before, path, ask);
    } else {
      var init, last := after[..|after| - 1], after[|after| - 1];
      SkippedEntry(before, path, init, ask);
      assert before + [path] + after == (before + [path] + init) + [last];
      assert before + after == (before + init) + [last];
      CollectSnoc(before + [path] + init, last, ask);
      CollectSnoc(before + init, last, ask);
    }
  }

  // ---------------------------------------------------------------------------
  // The script's own loop

  /** Only image entries reach the recogniser: recognisers that agree on the image entries give the same outcome. */
  lemma OnlyImagesAsked(entries: seq<Path>, enforce: bool, r1: RepresentRequest -> Answer,
                        r2: RepresentRequest -> Answer)
    requires forall i :: 0 <= i < |entries| && IsImageFile(entries[i]) ==>
               r1(RepresentCall(entries[i], enforce)) == r2(RepresentCall(entries[i], enforce))
    ensures Collect(entries, Ask(enforce, r1)) == Collect(entries, Ask(enforce, r2))
  {
    forall i | 0 <= i < |entries|
      ensures Ask(enforce, r1)(entries[i]) == Ask(enforce, r2)(entries[i])
    {
      AskSpec(enforce, r1, entries[i]);
      AskSpec(enforce, r2, entries[i]);
    }
    CollectSameAnswers(entries, Ask(enforce, r1), Ask(enforce, r2));
  }

  /** An image the recogniser answers with no representation contributes no record, and the loop goes on. */
  lemma EmptyAnswerSkipped(before: seq<Path>, path: Path, after: seq<Path>, enforce: bool,
                           represent: RepresentRequest -> Answer)
    requires represent(RepresentCall(path, enforce)) == Represented([])
    ensures Collect(before + [path] + after, Ask(enforce, represent)) ==
            Collect(before + after, Ask(enforce, represent))
  {
    AskSpec(enforce, represent, path);
    SkippedEntry(before, path, after, Ask(enforce, represent));
  }

  /** A non-image entry contributes no record and never stops the loop. */
  lemma NonImageSkipped(before: seq<Path>, path: Path, after: seq<Path>, enforce: bool,
                        represent: RepresentRequest -> Answer)
    requires !IsImageFile(path)
    ensures Collect(before + [path] + after, Ask(enforce, represent)) ==
            Collect(before + after, Ask(enforce, represent))
  {
    AskSpec(enforce, represent, path);
    SkippedEntry(before, path, after, Ask(enforce, represent));
  }

  /**
   * The collection as a whole: a faces_dir that is not a directory stops it;
   * otherwise it stops exactly when the recogniser fails on an image entry,
   * and when it does not stop, the records are one per image entry with a
   * non-empty answer, in sorted path order.
   */
  lemma RunCollectSpec(fs: FileSystem, facesDir: Path, enforce: bool, represent: RepresentRequest -> Answer)
    ensures !IsDir(fs, facesDir) ==> RunCollect(fs, facesDir, enforce, represent) == Collected([], Aborted)
    ensures IsDir(fs, facesDir) ==>
              var entries := SortedChildren(fs, facesDir);
              (RunCollect(fs, facesDir, enforce, represent).status == Aborted <==>
                 exists i :: 0 <= i < |entries| && IsImageFile(entries[i]) &&
                   represent(RepresentCall(entries[i], enforce)).RepresentFailed?)
    ensures IsDir(fs, facesDir) && RunCollect(fs, facesDir, enforce, represent).status == Completed ==>
              var rs := RunCollect(fs, facesDir, enforce, represent).records;
              rs == Records(SortedChildren(fs, facesDir), Ask(enforce, represent)) &&
              forall i, j :: 0 <= i < j < |rs| ==> Below(rs[i].imagePath, rs[j].imagePath)
  {
    if IsDir(fs, facesDir) {
      var entries := SortedChildren(fs, facesDir);
      var ask := Ask(enforce, represent);
      CollectAborts(entries, ask);
      forall i | 0 <= i < |entries|
        ensures Fails(entries[i], ask) <==>
                IsImageFile(entries[i]) && represent(RepresentCall(entries[i], enforce)).RepresentFailed?
      {
        AskSpec(enforce, represent, entries[i]);
      }
      CollectRecords(entries, ask);
      SortedChildrenSpec(fs, facesDir);
      RecordsSpec(entries, ask);
    }
  }

  /**
   * One pass of the loop body: skip a non-image, ask the recogniser, skip an
   * empty answer, otherwise append the record.
   */
  method Visit(records: seq<EmbeddingRecord>, path: Path, enforce: bool,
               represent: RepresentRequest -> Answer) returns (c: Collected)
    ensures c == Step(records, path, Ask(enforce, represent)(path))
  {
    AskSpec(enforce, represent, path);
    if !IsImageFile(path) {
      return Collected(records, Completed);
    }
    var representation := represent(RepresentCall(path, enforce));
    if representation.RepresentFailed? {
      return Collected(records, Aborted);
    }
    if representation.reps == [] {
      return Collected(records, Completed);
    }
    c := Collected(records + [EmbeddingRecord(str(path), representation.reps[0].embedding)], Completed);
  }

  /**
   * The collection loop of main (`results`, built in entry order), proved to
   * compute RunCollect.
   */
  method CollectEmbeddings(fs: FileSystem, facesDir: Path, enforce: bool,
                           represent: RepresentRequest -> Answer)
    returns (records: seq<EmbeddingRecord>, status: Status)
    ensures Collected(records, status) == RunCollect(fs, facesDir, enforce, represent)
  {
    if !IsDir(fs, facesDir) {
      return [], Aborted;
    }
    var entries := SortedChildren(fs, facesDir);
    ghost var ask := Ask(enforce, represent);
    records := [];
    var i := 0;
    while i < |entries|
      invariant 0 <= i <= |entries|
      invariant Collect(entries[..i], ask) == Collected(records, Completed)
    {
      CollectNext(entries, i, ask);
      var c := Visit(records, entries[i], enforce, represent);
      if c.status == Aborted {
        CollectAbortedStays(entries, i + 1, ask);
        assert Collect(entries, ask) == Collected(records, Aborted);
        return records, Aborted;
      }
      records := c.records;
      i := i + 1;
    }
    assert entries[..i] == entries;
    assert Collect(entries, ask) == Collected(records, Completed);
    status := Completed;
  }

  /** The part of the file system the embedder reads and writes. */
  class Disk {
    /** The directory listings (iterdir, mkdir). */
    var fs: FileSystem
    /** The JSON documents written, by path. */
    var documents: map<Path, seq<EmbeddingRecord>>

    constructor (fs: FileSystem)
      ensures this.fs == fs && documents == map[]
    {
      this.fs := fs;
      documents := map[];
    }

    /**
     * output_path.parent.mkdir(parents=True, exist_ok=True), then json.dump into
     * output_path opened for writing. Aborted when either step raises: the
     * mkdir (see MakeDirRaises), or open() on a path that is a directory
     * (IsADirectoryError). The directory the mkdir created stays.
     */
    method WriteDocument(path: Path, records: seq<EmbeddingRecord>) returns (status: Status)
      modifies this
      ensures MakeDirRaises(old(fs), Parent(path)) ==>
                status == Aborted && fs == old(fs) && documents == old(documents)
      ensures !MakeDirRaises(old(fs), Parent(path)) && IsDir(MakeDir(old(fs), Parent(path)), path) ==>
                status == Aborted && fs == MakeDir(old(fs), Parent(path)) && documents == old(documents)
      ensures !MakeDirRaises(old(fs), Parent(path)) && !IsDir(MakeDir(old(fs), Parent(path)), path) ==>
                status == Completed &&
                fs == AddEntry(MakeDir(old(fs), Parent(path)), Parent(path), Name(path)) &&
                documents == old(documents)[path := records]
    {
      if MakeDirRaises(fs, Parent(path)) {
        return Aborted;
      }
      fs := MakeDir(fs, Parent(path));
      if IsDir(fs, path) {
        return Aborted;
      }
      fs := AddEntry(fs, Parent(path), Name(path));
      documents := documents[path := records];
      status := Completed;
    }
  }

  /** output_path.open("w") raises after the mkdir: the output path is then a directory. */
  predicate OpenRaises(fs: FileSystem, outputPath: Path) {
    IsDir(MakeDir(fs, Parent(outputPath)), outputPath)
  }

  /**
   * main: collect the records, then write them, replacing any earlier document
   * at the output path. An exception raised during collection or by the mkdir
   * leaves the disk as it was; no document is written unless the run completes.
   */
  method Embed(disk: Disk, facesDir: Path, outputPath: Path, enforce: bool,
               represent: RepresentRequest -> Answer) returns (status: Status)
    modifies disk
    ensures var c := RunCollect(old(disk.fs), facesDir, enforce, represent);
            var raises := c.status == Aborted || MakeDirRaises(old(disk.fs), Parent(outputPath)) ||
                          OpenRaises(old(disk.fs), outputPath);
            (status == Aborted <==> raises) &&
            (status == Aborted ==> disk.documents == old(disk.documents)) &&
            (c.status == Aborted || MakeDirRaises(old(disk.fs), Parent(outputPath)) ==> disk.fs == old(disk.fs)) &&
            ((c.status == Completed && !MakeDirRaises(old(disk.fs), Parent(outputPath)) &&
              OpenRaises(old(disk.fs), outputPath)) ==> disk.fs == MakeDir(old(disk.fs), Parent(outputPath))) &&
            (status == Completed ==>
               disk.fs == AddEntry(MakeDir(old(disk.fs), Parent(outputPath)), Parent(outputPath), Name(outputPath)) &&
               disk.documents == old(disk.documents)[outputPath := c.records])
  {
    var records;
    records, status := CollectEmbeddings(disk.fs, facesDir, enforce, represent);
    if status == Aborted {
      return;
    }
    status := disk.WriteDocument(outputPath, records);
  }

  /** After the document is written, its parent directory lists it under the output path's own name. */
  lemma DocumentFound(fs: FileSystem, outputPath: Path)
    requires Name(outputPath) != [] && Normalised(outputPath)
    ensures var after := AddEntry(MakeDir(fs, Parent(outputPath)), Parent(outputPath), Name(outputPath));
            IsDir(after, Parent(outputPath)) && Name(outputPath) in after.listings[Parent(outputPath)] &&
            Child(Parent(outputPath), Name(outputPath)) == outputPath
  {
    ParentChild(outputPath);
  }
}
