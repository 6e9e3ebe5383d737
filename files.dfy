/**
 * Reading training files. The file system is a parameter: `files` maps each path that can be
 * opened to the lines `std::getline` yields for it; a path absent from the map cannot be opened.
 */
module Files {
  import opened Bytes

  /** The lines of the files, one file after the other. */
  function AllLines(paths: seq<Str>, files: map<Str, seq<Str>>): seq<Str>
    requires forall p :: p in paths ==> p in files
    decreases |paths|
  {
    if paths == [] then [] else AllLines(paths[..|paths| - 1], files) + files[paths[|paths| - 1]]
  }

  /** The first path that cannot be opened. */
  function FirstMissing(paths: seq<Str>, files: map<Str, seq<Str>>): Str
    requires exists p :: p in paths && p !in files
    decreases |paths|
  {
    if paths[0] !in files then paths[0]
    else
      assert exists p :: p in paths[1..] && p !in files by {
        var p :| p in paths && p !in files;
        var i :| 0 <= i < |paths| && paths[i] == p;
        assert paths[1..][i - 1] == p;
      }
      FirstMissing(paths[1..], files)
  }

  lemma {:induction false} FirstMissingAt(paths: seq<Str>, files: map<Str, seq<Str>>, k: nat)
    requires k < |paths| && paths[k] !in files
    requires forall j :: 0 <= j < k ==> paths[j] in files
    ensures FirstMissing(paths, files) == paths[k]
    decreases k
  {
    if k > 0 {
      assert paths[1..][k - 1] == paths[k];
      FirstMissingAt(paths[1..], files, k - 1);
    }
  }

  /** The non-empty lines, in order. */
  function NonEmpty(lines: seq<Str>): (r: seq<Str>)
    ensures forall k :: 0 <= k < |r| ==> r[k] != [] && r[k] in lines
    ensures forall l :: l in lines && l != [] ==> l in r
    decreases |lines|
  {
    if lines == [] then []
    else
      var last := lines[|lines| - 1];
      var rest := NonEmpty(lines[..|lines| - 1]);
      assert forall l :: l in lines ==> l in lines[..|lines| - 1] || l == last;
      if last != [] then rest + [last] else rest
  }

  /** Filtering distributes over appending, so it may be done file by file. */
  lemma {:induction false} NonEmptyAppend(a: seq<Str>, b: seq<Str>)
    ensures NonEmpty(a + b) == NonEmpty(a) + NonEmpty(b)
    decreases |b|
  {
    if b == [] {
      assert a + b == a;
    } else {
      var init := b[..|b| - 1];
      assert (a + b)[..|a + b| - 1] == a + init;
      NonEmptyAppend(a, init);
    }
  }
}
