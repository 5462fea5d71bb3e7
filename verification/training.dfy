/**
 * Label assignment for the recogniser's training set: walk the dataset
 * directory listing, give every person directory the next label number,
 * and pair every file inside it with that label. Reading an image is
 * foreign code, so a face is represented by the path it is read from.
 */
module Training {
  import opened Optional
  import opened Paths

  /** A name from the dataset listing: whether it is a directory, and what is listed inside it. */
  datatype Entry = Entry(name: string, isDir: bool, images: seq<string>)

  const DatasetPath: string := "dataset"

  /** `os.path.join(a, b)` for a relative `b` and an `a` without a trailing separator. */
  function Join(a: string, b: string): string {
    a + [Sep] + b
  }

  function ImagePath(person: string, image: string): string {
    Join(Join(DatasetPath, person), image)
  }

  /** The faces read from the listed files of one person directory, in listing order. */
  function PathsOf(person: string, images: seq<string>): (r: seq<string>)
    ensures |r| == |images|
  {
    if images == [] then []
    else PathsOf(person, images[..|images| - 1]) + [ImagePath(person, images[|images| - 1])]
  }

  function ImagePaths(e: Entry): (r: seq<string>)
    ensures |r| == |e.images|
  {
    PathsOf(e.name, e.images)
  }

  /** `n` copies of `x`. */
  function Repeat(x: int, n: nat): (r: seq<int>)
    ensures |r| == n
  {
    if n == 0 then [] else Repeat(x, n - 1) + [x]
  }

  lemma {:induction false} PathsOfAt(person: string, images: seq<string>, j: int)
    requires 0 <= j < |images|
    ensures PathsOf(person, images)[j] == ImagePath(person, images[j])
  {
    var init := images[..|images| - 1];
    if j < |init| {
      PathsOfAt(person, init, j);
    }
  }

  lemma {:induction false} RepeatAt(x: int, n: nat, k: int)
    requires 0 <= k < n
    ensures Repeat(x, n)[k] == x
  {
    if k < n - 1 {
      RepeatAt(x, n - 1, k);
    }
  }

  /** The listing with non-directories dropped, order kept. */
  function PersonDirs(entries: seq<Entry>): (dirs: seq<Entry>)
    ensures |dirs| <= |entries|
    ensures forall k | 0 <= k < |dirs| :: dirs[k].isDir
    ensures forall k | 0 <= k < |entries| && entries[k].isDir :: entries[k] in dirs
  {
    if entries == [] then []
    else
      var last := entries[|entries| - 1];
      PersonDirs(entries[..|entries| - 1]) + (if last.isDir then [last] else [])
  }

  /** Every person directory comes from the listing. */
  lemma {:induction false} PersonDirIsListed(entries: seq<Entry>, k: int)
    requires 0 <= k < |PersonDirs(entries)|
    ensures PersonDirs(entries)[k] in entries
  {
    var init := entries[..|entries| - 1];
    if k < |PersonDirs(init)| {
      PersonDirIsListed(init, k);
      assert PersonDirs(init)[k] in init;
    } else {
      assert PersonDirs(entries)[k] == entries[|entries| - 1];
    }
  }

  /** All faces, directory after directory. */
  function AllImages(dirs: seq<Entry>): seq<string> {
    if dirs == [] then []
    else AllImages(dirs[..|dirs| - 1]) + ImagePaths(dirs[|dirs| - 1])
  }

  /** The label of each face: the position of its directory among the person directories. */
  function AllLabels(dirs: seq<Entry>): (labels: seq<int>)
    ensures |labels| == |AllImages(dirs)|
  {
    if dirs == [] then []
    else
      var last := dirs[|dirs| - 1];
      AllLabels(dirs[..|dirs| - 1]) + Repeat(|dirs| - 1, |last.images|)
  }

  /** Every label lies between 0 and the number of person directories. */
  lemma {:induction false} LabelBounds(dirs: seq<Entry>, n: int)
    requires 0 <= n < |AllLabels(dirs)|
    ensures 0 <= AllLabels(dirs)[n] < |dirs|
  {
    var init := dirs[..|dirs| - 1];
    if n < |AllLabels(init)| {
      LabelBounds(init, n);
    } else {
      RepeatAt(|dirs| - 1, |dirs[|dirs| - 1].images|, n - |AllLabels(init)|);
    }
  }

  /** `label_map`: label k names the k-th person directory, and there are no other keys. */
  function LabelMap(dirs: seq<Entry>): (m: map<int, string>)
    ensures forall k :: k in m <==> 0 <= k < |dirs|
    ensures forall k | 0 <= k < |dirs| :: m[k] == dirs[k].name
  {
    map k | 0 <= k < |dirs| :: dirs[k].name
  }

  /** One more person directory: its faces and labels go at the end, all with the old count as label. */
  lemma AddDirectory(dirs: seq<Entry>, person: Entry)
    ensures AllImages(dirs + [person]) == AllImages(dirs) + ImagePaths(person)
    ensures AllLabels(dirs + [person]) == AllLabels(dirs) + Repeat(|dirs|, |person.images|)
  {
    assert (dirs + [person])[..|dirs|] == dirs;
  }

  /** One more person directory: the label map gains exactly the old count, naming it. */
  lemma AddDirectoryLabel(dirs: seq<Entry>, person: Entry)
    ensures LabelMap(dirs + [person]) == LabelMap(dirs)[|dirs| := person.name]
  {
    var after := dirs + [person];
    var a, b := LabelMap(after), LabelMap(dirs)[|dirs| := person.name];
    forall k | k in a
      ensures k in b && a[k] == b[k]
    {
      if k < |dirs| {
        assert after[k] == dirs[k];
      }
    }
    assert a.Keys == b.Keys;
  }

  /** What the training script has built after walking a listing. */
  datatype TrainingSet = TrainingSet(faces: seq<string>, labels: seq<int>, labelMap: map<int, string>, currentLabel: int)

  /** The walk, one listing entry at a time: a directory gets the next label and adds its faces. */
  function Walk(entries: seq<Entry>): (t: TrainingSet)
    ensures |t.faces| == |t.labels|
    ensures t.currentLabel == |PersonDirs(entries)|
    ensures forall k :: k in t.labelMap <==> 0 <= k < t.currentLabel
  {
    if entries == [] then TrainingSet([], [], map[], 0)
    else
      var t, e := Walk(entries[..|entries| - 1]), entries[|entries| - 1];
      if e.isDir then
        TrainingSet(t.faces + PathsOf(e.name, e.images), t.labels + Repeat(t.currentLabel, |e.images|),
                    t.labelMap[t.currentLabel := e.name], t.currentLabel + 1)
      else t
  }

  /** The walk builds exactly the reference training set of the person directories. */
  lemma {:induction false} WalkIsReference(entries: seq<Entry>)
    ensures Walk(entries) == TrainingSet(AllImages(PersonDirs(entries)), AllLabels(PersonDirs(entries)),
                                         LabelMap(PersonDirs(entries)), |PersonDirs(entries)|)
  {
    if entries != [] {
      var init, e := entries[..|entries| - 1], entries[|entries| - 1];
      WalkIsReference(init);
      if e.isDir {
        assert PersonDirs(entries) == PersonDirs(init) + [e];
        AddDirectory(PersonDirs(init), e);
        AddDirectoryLabel(PersonDirs(init), e);
      } else {
        assert PersonDirs(entries) == PersonDirs(init);
      }
    }
  }

  /**
   * The properties of the finished training set: the face and label lists
   * pair up, the label map's keys are exactly 0 up to the counter, and each
   * face is one of the image paths of the directory its label names.
   */
  lemma TrainingSetProperties(entries: seq<Entry>)
    ensures var t := Walk(entries);
      && t.currentLabel == |PersonDirs(entries)|
      && |t.faces| == |t.labels|
      && (forall k :: k in t.labelMap <==> 0 <= k < t.currentLabel)
      && (forall n | 0 <= n < |t.labels| :: 0 <= t.labels[n] < t.currentLabel && t.labels[n] in t.labelMap)
      && (forall n | 0 <= n < |t.labels| :: t.faces[n] in ImagePaths(PersonDirs(entries)[t.labels[n]]))
  {
    WalkIsReference(entries);
    var dirs := PersonDirs(entries);
    forall n | 0 <= n < |AllLabels(dirs)|
      ensures 0 <= AllLabels(dirs)[n] < |dirs|
      ensures AllImages(dirs)[n] in ImagePaths(dirs[AllLabels(dirs)[n]])
    {
      FaceInLabelledDirectory(dirs, n);
    }
  }

  /** The inner loop: every file of one person directory adds its face and the directory's label. */
  method AddPersonFaces(faces: seq<string>, labels: seq<int>, person: Entry, personLabel: int)
    returns (faces': seq<string>, labels': seq<int>)
    ensures faces' == faces + ImagePaths(person)
    ensures labels' == labels + Repeat(personLabel, |person.images|)
  {
    faces', labels' := faces, labels;
    var j := 0;
    while j < |person.images|
      invariant 0 <= j <= |person.images|
      invariant faces' == faces + PathsOf(person.name, person.images[..j])
      invariant labels' == labels + Repeat(personLabel, j)
    {
      assert person.images[..j + 1][..j] == person.images[..j];
      faces' := faces' + [ImagePath(person.name, person.images[j])];
      labels' := labels' + [personLabel];
      j := j + 1;
    }
    assert person.images[..j] == person.images;
  }

  /**
   * The nested loops of the training script, proved to build the walk's
   * training set; its properties are those of TrainingSetProperties.
   */
  method BuildTrainingSet(entries: seq<Entry>)
    returns (faces: seq<string>, labels: seq<int>, labelMap: map<int, string>, currentLabel: int)
    ensures TrainingSet(faces, labels, labelMap, currentLabel) == Walk(entries)
    ensures |faces| == |labels|
    ensures currentLabel == |PersonDirs(entries)|
    ensures forall k :: k in labelMap <==> 0 <= k < currentLabel
    ensures forall n | 0 <= n < |labels| :: 0 <= labels[n] < currentLabel && labels[n] in labelMap
  {
    faces, labels, labelMap, currentLabel := [], [], map[], 0;
    var i := 0;
    while i < |entries|
      invariant 0 <= i <= |entries|
      invariant TrainingSet(faces, labels, labelMap, currentLabel) == Walk(entries[..i])
    {
      var person := entries[i];
      assert entries[..i + 1][..i] == entries[..i];
      if person.isDir {
        labelMap := labelMap[currentLabel := person.name];
        faces, labels := AddPersonFaces(faces, labels, person, currentLabel);
        currentLabel := currentLabel + 1;
      }
      i := i + 1;
    }
    assert entries[..|entries|] == entries;
    TrainingSetProperties(entries);
  }

  /**
   * Face n lies in the person directory that label n stands for:
   * its path is one of that directory's image paths.
   */
  lemma {:induction false} FaceInLabelledDirectory(dirs: seq<Entry>, n: int)
    requires 0 <= n < |AllImages(dirs)|
    ensures 0 <= AllLabels(dirs)[n] < |dirs|
    ensures AllImages(dirs)[n] in ImagePaths(dirs[AllLabels(dirs)[n]])
  {
    LabelBounds(dirs, n);
    var init, last := dirs[..|dirs| - 1], dirs[|dirs| - 1];
    var before := |AllImages(init)|;
    if n < before {
      FaceInLabelledDirectory(init, n);
      assert AllLabels(dirs)[n] == AllLabels(init)[n];
      assert dirs[AllLabels(dirs)[n]] == init[AllLabels(init)[n]];
    } else {
      assert AllImages(dirs)[n] == ImagePaths(last)[n - before];
      RepeatAt(|dirs| - 1, |last.images|, n - before);
    }
  }

  /**
   * With listing names that are single path components, the name the GUI
   * and the console derive from any face's path is the name the label map
   * gives its label.
   */
  lemma FaceNamesMatchLabelMap(entries: seq<Entry>, n: int)
    requires forall k | 0 <= k < |entries| :: IsComponent(entries[k].name)
    requires forall k, j | 0 <= k < |entries| && 0 <= j < |entries[k].images| :: IsComponent(entries[k].images[j])
    requires 0 <= n < |Walk(entries).faces|
    ensures var t := Walk(entries);
      && n < |t.labels| && t.labels[n] in t.labelMap
      && BaseDir(t.faces[n]) == t.labelMap[t.labels[n]]
      && SecondComponent(t.faces[n]) == Some(t.labelMap[t.labels[n]])
  {
    WalkIsReference(entries);
    var dirs := PersonDirs(entries);
    FaceInLabelledDirectory(dirs, n);
    var d := dirs[AllLabels(dirs)[n]];
    PersonDirIsListed(entries, AllLabels(dirs)[n]);
    FaceNameInDirectory(d, AllImages(dirs)[n]);
  }

  /** A face read from a listed directory names that directory, by either derivation. */
  lemma FaceNameInDirectory(d: Entry, face: string)
    requires IsComponent(d.name)
    requires forall j | 0 <= j < |d.images| :: IsComponent(d.images[j])
    requires face in ImagePaths(d)
    ensures BaseDir(face) == d.name && SecondComponent(face) == Some(d.name)
  {
    var j :| 0 <= j < |d.images| && ImagePaths(d)[j] == face;
    PathsOfAt(d.name, d.images, j);
    assert face == DatasetPath + [Sep] + d.name + [Sep] + d.images[j];
    NameDerivationsAgree(DatasetPath, d.name, d.images[j]);
  }

  /** A file in the dataset listing takes no label: the person directories are unchanged. */
  lemma FilesTakeNoLabel(entries: seq<Entry>, file: Entry)
    requires !file.isDir
    ensures PersonDirs(entries + [file]) == PersonDirs(entries)
  {
    assert (entries + [file])[..|entries|] == entries;
  }

  /**
   * A person directory without images still gets the next label and moves
   * the counter on, while adding no face and no label to the lists.
   */
  lemma EmptyDirectoryStillLabelled(entries: seq<Entry>, person: Entry)
    requires person.isDir && person.images == []
    ensures var before, after := PersonDirs(entries), PersonDirs(entries + [person]);
      && |after| == |before| + 1
      && LabelMap(after) == LabelMap(before)[|before| := person.name]
      && AllImages(after) == AllImages(before)
      && AllLabels(after) == AllLabels(before)
  {
    assert (entries + [person])[..|entries|] == entries;
    AddDirectory(PersonDirs(entries), person);
    AddDirectoryLabel(PersonDirs(entries), person);
  }
}
