/** Locating the annotation file of a dataset: the walk over the dataset
    directory that keeps the last file whose name ends in `.xml`, in any
    letter case. */
module Annotations {
  import opened Text
  import opened Paths

  /** One triple `(dirname, dirs, files)` that `os.walk` yields. */
  datatype WalkEntry = WalkEntry(dirname: string, dirs: seq<string>, files: seq<string>)

  /** A file the walk meets: the directory it is in and its name. */
  datatype Found = Found(dirname: string, name: string)

  /** `f.lower().endswith('.xml')` */
  predicate IsXmlName(f: string) {
    EndsWith(Lower(f), ".xml")
  }

  /** The files of one directory, in the order `os.walk` lists them. */
  function FilesOf(d: string, files: seq<string>): (r: seq<Found>)
    ensures |r| == |files|
    ensures forall k :: 0 <= k < |r| ==> r[k] == Found(d, files[k])
  {
    seq(|files|, k requires 0 <= k < |files| => Found(d, files[k]))
  }

  /** Every file of the walk, directory after directory. */
  function WalkFiles(walk: seq<WalkEntry>): seq<Found>
  {
    if walk == [] then []
    else
      var e := walk[|walk| - 1];
      WalkFiles(walk[..|walk| - 1]) + FilesOf(e.dirname, e.files)
  }

  /** The paths `os.path.join(dirname, name)` of the `.xml` files among
      `found`, in order. */
  function XmlPaths(found: seq<Found>): seq<string>
  {
    if found == [] then []
    else
      var f := found[|found| - 1];
      XmlPaths(found[..|found| - 1]) + (if IsXmlName(f.name) then [PathJoin(f.dirname, f.name)] else [])
  }

  /** The last of `paths`, or `""` when there is none. */
  function LastOrEmpty(paths: seq<string>): string
  {
    if paths == [] then "" else paths[|paths| - 1]
  }

  /** Meeting one more file: an `.xml` name replaces the selection. */
  lemma SelectNext(found: seq<Found>, f: Found)
    ensures LastOrEmpty(XmlPaths(found + [f])) ==
      if IsXmlName(f.name) then PathJoin(f.dirname, f.name) else LastOrEmpty(XmlPaths(found))
  {
    assert (found + [f])[..|found|] == found;
  }

  lemma FilesOfStep(d: string, files: seq<string>, j: nat)
    requires j < |files|
    ensures FilesOf(d, files[..j + 1]) == FilesOf(d, files[..j]) + [Found(d, files[j])]
  {
  }

  lemma WalkFilesStep(walk: seq<WalkEntry>, i: nat)
    requires i < |walk|
    ensures WalkFiles(walk[..i + 1]) == WalkFiles(walk[..i]) + FilesOf(walk[i].dirname, walk[i].files)
  {
    assert walk[..i + 1][..i] == walk[..i];
  }

  /** The loop of the main block: walk the dataset directory and remember the
      path of every `.xml` file met, so that the last one stays. */
  method SelectAnnotationFile(walk: seq<WalkEntry>) returns (xmlFile: string)
    ensures xmlFile == LastOrEmpty(XmlPaths(WalkFiles(walk)))
  {
    xmlFile := "";
    var i := 0;
    while i < |walk|
      invariant 0 <= i <= |walk|
      invariant xmlFile == LastOrEmpty(XmlPaths(WalkFiles(walk[..i])))
    {
      var e := walk[i];
      var seen := WalkFiles(walk[..i]);
      var j := 0;
      assert seen + FilesOf(e.dirname, e.files[..0]) == seen;
      while j < |e.files|
        invariant 0 <= j <= |e.files|
        invariant xmlFile == LastOrEmpty(XmlPaths(seen + FilesOf(e.dirname, e.files[..j])))
      {
        var f := e.files[j];
        FilesOfStep(e.dirname, e.files, j);
        SelectNext(seen + FilesOf(e.dirname, e.files[..j]), Found(e.dirname, f));
        assert seen + FilesOf(e.dirname, e.files[..j + 1])
          == (seen + FilesOf(e.dirname, e.files[..j])) + [Found(e.dirname, f)];
        if IsXmlName(f) {
          xmlFile := PathJoin(e.dirname, f);
        }
        j := j + 1;
      }
      WalkFilesStep(walk, i);
      assert e.files[..j] == e.files;
      i := i + 1;
    }
    assert walk[..i] == walk;
  }

  // ---------------------------------------------------------------------------
  // Which file the walk selects
  // ---------------------------------------------------------------------------

  /** The letter case of the extension does not matter; the extension must be
      the last thing in the name. */
  lemma XmlNames()
    ensures IsXmlName("A.XML") && IsXmlName("scene.Xml") && IsXmlName(".xml")
    ensures !IsXmlName("xml") && !IsXmlName("a.xml.bak") && !IsXmlName("a_xml")
  {
    assert Lower("A.XML") == "a.xml";
    assert Lower("scene.Xml") == "scene.xml";
    assert Lower(".xml") == ".xml";
    assert Lower("a.xml.bak")[5..] == ".bak";
    assert Lower("a_xml")[1] == '_';
  }

  /** The `.xml` test looks at the last four characters only: a dot, then
      the letters x, m and l in either case. */
  lemma XmlNameChars(f: string)
    ensures IsXmlName(f) <==>
      && |f| >= 4 && f[|f| - 4] == '.' && f[|f| - 3] in "xX"
      && f[|f| - 2] in "mM" && f[|f| - 1] in "lL"
  {
    var L := Lower(f);
    if |f| >= 4 {
      assert L[|L| - 4..] == [L[|L| - 4], L[|L| - 3], L[|L| - 2], L[|L| - 1]];
    }
  }

  /** The walk meets a file `f` in directory `d` exactly when some triple of
      the walk has `d` as its directory and lists `f` among its files. */
  lemma {:induction false} WalkFilesHas(walk: seq<WalkEntry>, d: string, f: string)
    ensures Found(d, f) in WalkFiles(walk) <==>
      exists i :: 0 <= i < |walk| && walk[i].dirname == d && f in walk[i].files
    decreases |walk|
  {
    if walk != [] {
      var init := walk[..|walk| - 1];
      var e := walk[|walk| - 1];
      WalkFilesHas(init, d, f);
      var fs := FilesOf(e.dirname, e.files);
      assert Found(d, f) in fs <==> e.dirname == d && f in e.files by {
        if Found(d, f) in fs {
          var k :| 0 <= k < |fs| && fs[k] == Found(d, f);
          assert e.files[k] == f;
        }
        if e.dirname == d && f in e.files {
          var k :| 0 <= k < |e.files| && e.files[k] == f;
          assert fs[k] == Found(d, f);
        }
      }
      if exists i :: 0 <= i < |walk| && walk[i].dirname == d && f in walk[i].files {
        var i :| 0 <= i < |walk| && walk[i].dirname == d && f in walk[i].files;
        if i < |walk| - 1 {
          assert init[i] == walk[i];
        }
      }
      if exists i :: 0 <= i < |init| && init[i].dirname == d && f in init[i].files {
        var i :| 0 <= i < |init| && init[i].dirname == d && f in init[i].files;
        assert walk[i] == init[i];
      }
    }
  }

  /** No path is kept exactly when no file has an `.xml` name. */
  lemma {:induction false} XmlPathsEmpty(found: seq<Found>)
    ensures XmlPaths(found) == [] <==> forall k :: 0 <= k < |found| ==> !IsXmlName(found[k].name)
    decreases |found|
  {
    if found != [] {
      var init := found[..|found| - 1];
      XmlPathsEmpty(init);
      assert forall k :: 0 <= k < |init| ==> init[k] == found[k];
    }
  }

  /** The last file with an `.xml` name gives the last path kept. */
  lemma {:induction false} XmlPathsLast(found: seq<Found>, k: nat)
    requires k < |found| && IsXmlName(found[k].name)
    requires forall m :: k < m < |found| ==> !IsXmlName(found[m].name)
    ensures LastOrEmpty(XmlPaths(found)) == PathJoin(found[k].dirname, found[k].name)
    decreases |found|
  {
    if k < |found| - 1 {
      var init := found[..|found| - 1];
      assert init[k] == found[k];
      assert forall m :: k < m < |init| ==> init[m] == found[m];
      XmlPathsLast(init, k);
    }
  }

  /** Where there is an `.xml` file, there is a last one. */
  lemma LastXml(found: seq<Found>, k: nat) returns (last: nat)
    requires k < |found| && IsXmlName(found[k].name)
    ensures k <= last < |found| && IsXmlName(found[last].name)
    ensures forall m :: last < m < |found| ==> !IsXmlName(found[m].name)
  {
    last := k;
    var m := k + 1;
    while m < |found|
      invariant k <= last < m <= |found| && IsXmlName(found[last].name)
      invariant forall n :: last < n < m ==> !IsXmlName(found[n].name)
    {
      if IsXmlName(found[m].name) {
        last := m;
      }
      m := m + 1;
    }
  }

  /** `found[k]` is the last file with an `.xml` name. */
  ghost predicate IsLastXml(found: seq<Found>, k: int) {
    && 0 <= k < |found| && IsXmlName(found[k].name)
    && forall m :: k < m < |found| ==> !IsXmlName(found[m].name)
  }

  /** The selected path is `""` exactly when no file the walk meets has an
      `.xml` name; otherwise it is the joined path of the last such file. */
  lemma SelectionIsLastXml(found: seq<Found>)
    ensures LastOrEmpty(XmlPaths(found)) == "" <==>
      forall k :: 0 <= k < |found| ==> !IsXmlName(found[k].name)
    ensures forall k :: IsLastXml(found, k) ==>
      LastOrEmpty(XmlPaths(found)) == PathJoin(found[k].dirname, found[k].name)
  {
    XmlPathsEmpty(found);
    forall k | IsLastXml(found, k)
      ensures LastOrEmpty(XmlPaths(found)) == PathJoin(found[k].dirname, found[k].name)
    {
      XmlPathsLast(found, k);
    }
    if k :| 0 <= k < |found| && IsXmlName(found[k].name) {
      var last := LastXml(found, k);
      XmlPathsLast(found, last);
      assert |found[last].name| >= 4;
    }
  }
}
