/**
  The fragment directory (crates/registry-manual/src/corpus.rs), over a disk that maps
  paths to what reading them gives.
*/
module Corpus {
  import opened Bytes

  datatype Result<+T> = Success(value: T) | Failure

  /** A path absent from `Disk.files` is not found; any other read error is `Unreadable`. */
  datatype FileState = Text(text: bytes) | Unreadable

  /** What listing the corpus directory gives. */
  datatype Listing = Names(names: seq<bytes>) | NoDirectory | Unlistable

  datatype Disk = Disk(dir: bytes, listing: Listing, files: map<bytes, FileState>)

  const SLASH: byte := 47
  const POINT: byte := 46
  const EXTENSION: bytes := [46, 114, 101, 103, 109, 97, 110]

  // ----- fragment paths, sorted -----

  predicate IsFragmentName(name: bytes) {
    |name| > |EXTENSION| && name[|name| - |EXTENSION|..] == EXTENSION
  }

  function PathOf(dir: bytes, name: bytes): bytes {
    dir + [SLASH] + name
  }

  function FragmentPaths(dir: bytes, names: seq<bytes>): seq<bytes> {
    if names == [] then []
    else
      FragmentPaths(dir, names[..|names| - 1])
      + (if IsFragmentName(names[|names| - 1]) then [PathOf(dir, names[|names| - 1])] else [])
  }

  function InsertPath(path: bytes, sorted: seq<bytes>): seq<bytes> {
    if sorted == [] || !Less(sorted[0], path) then [path] + sorted
    else [sorted[0]] + InsertPath(path, sorted[1..])
  }

  function SortPaths(paths: seq<bytes>): seq<bytes> {
    if paths == [] then [] else InsertPath(paths[0], SortPaths(paths[1..]))
  }

  /** Every `*.regman` file, sorted by path; a missing directory documents nothing. */
  function Fragments(disk: Disk): Result<seq<bytes>> {
    match disk.listing
    case Names(names) => Success(SortPaths(FragmentPaths(disk.dir, names)))
    case NoDirectory => Success([])
    case Unlistable => Failure
  }

  method ListFragments(disk: Disk) returns (r: Result<seq<bytes>>)
    ensures r == Fragments(disk)
  {
    match disk.listing {
      case NoDirectory => return Success([]);
      case Unlistable => return Failure;
      case Names(names) =>
        var out := [];
        for i := 0 to |names|
          invariant out == FragmentPaths(disk.dir, names[..i])
        {
          assert names[..i + 1][..i] == names[..i];
          if IsFragmentName(names[i]) {
            out := out + [PathOf(disk.dir, names[i])];
          }
        }
        assert names[..|names|] == names;
        return Success(SortPaths(out));
    }
  }

  lemma {:induction false} InsertPathMembers(path: bytes, sorted: seq<bytes>)
    ensures forall p :: p in InsertPath(path, sorted) <==> p == path || p in sorted
  {
    if sorted != [] && Less(sorted[0], path) {
      InsertPathMembers(path, sorted[1..]);
      assert sorted == [sorted[0]] + sorted[1..];
    }
  }

  ghost predicate PathOrder(paths: seq<bytes>) {
    forall i, j :: 0 <= i < j < |paths| ==> AtMost(paths[i], paths[j])
  }

  lemma AtMostTransitive(a: bytes, b: bytes, c: bytes)
    requires AtMost(a, b) && AtMost(b, c)
    ensures AtMost(a, c)
  {
    LessTotal(a, b);
    LessTotal(b, c);
    LessIrreflexive(a);
    if Less(a, b) {
      LessAtMostTransitive(a, b, c);
      LessAsymmetric(a, c);
    }
  }

  lemma PathOrderCons(path: bytes, sorted: seq<bytes>)
    requires PathOrder(sorted) && (sorted != [] ==> AtMost(path, sorted[0]))
    ensures PathOrder([path] + sorted)
  {
    forall j | 0 <= j < |sorted| ensures AtMost(path, sorted[j]) {
      if j > 0 {
        AtMostTransitive(path, sorted[0], sorted[j]);
      }
    }
  }

  lemma {:induction false} InsertPathOrder(path: bytes, sorted: seq<bytes>)
    requires PathOrder(sorted)
    ensures PathOrder(InsertPath(path, sorted))
    ensures InsertPath(path, sorted) != []
            && (InsertPath(path, sorted)[0] == path || (sorted != [] && InsertPath(path, sorted)[0] == sorted[0]))
  {
    hide Less;
    if sorted != [] && Less(sorted[0], path) {
      InsertPathOrder(path, sorted[1..]);
      LessAsymmetric(sorted[0], path);
      PathOrderCons(sorted[0], InsertPath(path, sorted[1..]));
    } else {
      PathOrderCons(path, sorted);
    }
  }

  lemma {:induction false} SortPathsOrder(paths: seq<bytes>)
    ensures PathOrder(SortPaths(paths))
  {
    if paths != [] {
      SortPathsOrder(paths[1..]);
      InsertPathOrder(paths[0], SortPaths(paths[1..]));
    }
  }

  lemma {:induction false} SortPathsMembers(paths: seq<bytes>)
    ensures forall p :: p in SortPaths(paths) <==> p in paths
  {
    if paths != [] {
      SortPathsMembers(paths[1..]);
      InsertPathMembers(paths[0], SortPaths(paths[1..]));
      assert paths == [paths[0]] + paths[1..];
    }
  }

  ghost predicate Distinct(s: seq<bytes>) {
    forall i, j :: 0 <= i < j < |s| ==> s[i] != s[j]
  }

  lemma {:induction false} InsertPathDistinct(path: bytes, sorted: seq<bytes>)
    requires Distinct(sorted) && path !in sorted
    ensures Distinct(InsertPath(path, sorted))
  {
    if sorted != [] && Less(sorted[0], path) {
      assert Distinct(sorted[1..]);
      InsertPathDistinct(path, sorted[1..]);
      InsertPathMembers(path, sorted[1..]);
      var rest := InsertPath(path, sorted[1..]);
      forall i | 0 <= i < |rest| ensures rest[i] != sorted[0] {
        assert rest[i] in rest;
      }
    }
  }

  lemma {:induction false} SortPathsDistinct(paths: seq<bytes>)
    requires Distinct(paths)
    ensures Distinct(SortPaths(paths))
  {
    if paths != [] {
      SortPathsDistinct(paths[1..]);
      SortPathsMembers(paths[1..]);
      InsertPathDistinct(paths[0], SortPaths(paths[1..]));
    }
  }

  // ----- providers -----

  function LastIndex(s: bytes, b: byte): (r: Option<nat>)
    ensures r.Some? ==> r.value < |s| && s[r.value] == b && b !in s[r.value + 1..]
    ensures r.None? ==> b !in s
  {
    if s == [] then None
    else if s[|s| - 1] == b then Some(|s| - 1)
    else
      var r := LastIndex(s[..|s| - 1], b);
      assert r.Some? ==> s[r.value + 1..] == s[..|s| - 1][r.value + 1..] + [s[|s| - 1]];
      r
  }

  function FileName(path: bytes): bytes {
    match LastIndex(path, SLASH)
    case None => path
    case Some(i) => path[i + 1..]
  }

  /** The file stem: the name up to its last dot, unless that dot comes first. */
  function Stem(name: bytes): bytes {
    match LastIndex(name, POINT)
    case None => name
    case Some(i) => if i == 0 then name else name[..i]
  }

  function ProviderOf(path: bytes): bytes {
    Stem(FileName(path))
  }

  lemma LastIndexSnoc(s: bytes, c: byte, b: byte)
    ensures LastIndex(s + [c], b) == if c == b then Some(|s|) else LastIndex(s, b)
  {
    assert (s + [c])[..|s|] == s;
  }

  lemma {:induction false} LastIndexIs(front: bytes, b: byte, back: bytes)
    requires b !in back
    ensures LastIndex(front + [b] + back, b) == Some(|front|)
    decreases |back|
  {
    hide LastIndex;
    if back == [] {
      LastIndexSnoc(front, b, b);
      assert front + [b] + back == front + [b];
    } else {
      var m := |back| - 1;
      LastIndexIs(front, b, back[..m]);
      LastIndexSnoc(front + [b] + back[..m], back[m], b);
      assert front + [b] + back[..m] + [back[m]] == front + [b] + back;
    }
  }

  lemma ProviderOfFragment(dir: bytes, name: bytes)
    requires IsFragmentName(name) && SLASH !in name
    ensures ProviderOf(PathOf(dir, name)) + EXTENSION == name
  {
    hide Stem, FileName, LastIndex, PathOf;
    FileNameOf(dir, name);
    StemOf(name[..|name| - |EXTENSION|]);
    assert name == name[..|name| - |EXTENSION|] + EXTENSION;
  }

  lemma FileNameOf(dir: bytes, name: bytes)
    requires SLASH !in name
    ensures FileName(PathOf(dir, name)) == name
  {
    hide LastIndex;
    LastIndexIs(dir, SLASH, name);
    assert PathOf(dir, name)[|dir| + 1..] == name;
  }

  lemma StemOf(stem: bytes)
    requires stem != []
    ensures Stem(stem + EXTENSION) == stem
  {
    hide LastIndex;
    var tail: bytes := [114, 101, 103, 109, 97, 110];
    assert stem + EXTENSION == stem + [POINT] + tail;
    LastIndexIs(stem, POINT, tail);
  }

  /** Directory entries: distinct names without a separator. */
  ghost predicate ProperListing(disk: Disk) {
    disk.listing.Names? ==>
      Distinct(disk.listing.names) && forall i :: 0 <= i < |disk.listing.names| ==> SLASH !in disk.listing.names[i]
  }

  ghost predicate DistinctProviders(paths: seq<bytes>) {
    forall i, j :: 0 <= i < |paths| && 0 <= j < |paths| && ProviderOf(paths[i]) == ProviderOf(paths[j])
      ==> paths[i] == paths[j]
  }

  // ----- which files are listed -----

  /** A fragment's name is a stem, not empty, and `.regman`. */
  lemma FragmentNames(name: bytes)
    ensures IsFragmentName(name) <==>
            exists stem: bytes :: stem != [] && name == stem + [46, 114, 101, 103, 109, 97, 110]
  {
    if IsFragmentName(name) {
      var stem := name[..|name| - 7];
      assert name == stem + [46, 114, 101, 103, 109, 97, 110];
    }
    forall stem: bytes | stem != [] && name == stem + [46, 114, 101, 103, 109, 97, 110] ensures IsFragmentName(name) {
      assert name[|name| - 7..] == [46, 114, 101, 103, 109, 97, 110];
    }
  }

  lemma {:induction false} FragmentPathsAre(dir: bytes, names: seq<bytes>)
    ensures forall p :: p in FragmentPaths(dir, names) <==>
              exists i :: 0 <= i < |names| && IsFragmentName(names[i]) && p == PathOf(dir, names[i])
  {
    hide IsFragmentName, PathOf;
    if names != [] {
      var n := |names| - 1;
      FragmentPathsAre(dir, names[..n]);
      assert forall i :: 0 <= i < n ==> names[..n][i] == names[i];
      forall p ensures p in FragmentPaths(dir, names) <==>
                 exists i :: 0 <= i < |names| && IsFragmentName(names[i]) && p == PathOf(dir, names[i])
      {
        if i :| 0 <= i < |names| && IsFragmentName(names[i]) && p == PathOf(dir, names[i]) {
          if i < n { assert names[..n][i] == names[i]; }
        }
        if p in FragmentPaths(dir, names[..n]) {
          var i :| 0 <= i < n && IsFragmentName(names[..n][i]) && p == PathOf(dir, names[..n][i]);
          assert names[i] == names[..n][i];
        }
      }
    }
  }

  /** The entries that are fragments with this path. */
  function Entries(dir: bytes, names: seq<bytes>, path: bytes): set<nat> {
    set i: nat | i < |names| && IsFragmentName(names[i]) && PathOf(dir, names[i]) == path
  }

  lemma EntriesSnoc(dir: bytes, names: seq<bytes>, path: bytes)
    requires names != []
    ensures var n := |names| - 1;
            && n !in Entries(dir, names[..n], path)
            && Entries(dir, names, path)
               == Entries(dir, names[..n], path)
                  + if IsFragmentName(names[n]) && PathOf(dir, names[n]) == path then {n} else {}
  {
    hide IsFragmentName, PathOf;
  }

  lemma CountSnoc(front: seq<bytes>, last: bytes, path: bytes)
    ensures multiset(front + [last])[path] == multiset(front)[path] + if last == path then 1 else 0
  {}

  lemma {:induction false} FragmentPathsCount(dir: bytes, names: seq<bytes>, path: bytes)
    ensures multiset(FragmentPaths(dir, names))[path] == |Entries(dir, names, path)|
  {
    if names != [] {
      var n := |names| - 1;
      hide IsFragmentName, PathOf, Entries;
      FragmentPathsCount(dir, names[..n], path);
      EntriesSnoc(dir, names, path);
      var front := FragmentPaths(dir, names[..n]);
      CountSnoc(front, PathOf(dir, names[n]), path);
      assert front + [] == front;
    }
  }

  lemma {:induction false} InsertPathCount(path: bytes, sorted: seq<bytes>)
    ensures multiset(InsertPath(path, sorted)) == multiset{path} + multiset(sorted)
  {
    hide Less;
    if sorted != [] && Less(sorted[0], path) {
      InsertPathCount(path, sorted[1..]);
      assert sorted == [sorted[0]] + sorted[1..];
    }
  }

  lemma {:induction false} SortPathsCount(paths: seq<bytes>)
    ensures multiset(SortPaths(paths)) == multiset(paths)
  {
    if paths != [] {
      SortPathsCount(paths[1..]);
      InsertPathCount(paths[0], SortPaths(paths[1..]));
      assert paths == [paths[0]] + paths[1..];
    }
  }

  /**
    The fragments are exactly the directory's entries with a fragment's name, each path
    as often as it is listed, in path order. A missing directory has none; one that
    cannot be listed is an error.
  */
  lemma FragmentsInOrder(disk: Disk)
    ensures disk.listing.Unlistable? ==> Fragments(disk).Failure?
    ensures disk.listing.NoDirectory? ==> Fragments(disk) == Success([])
    ensures disk.listing.Names? ==>
              var names, r := disk.listing.names, Fragments(disk);
              && r.Success? && PathOrder(r.value)
              && (forall p :: p in r.value <==>
                    exists i :: 0 <= i < |names| && IsFragmentName(names[i]) && p == disk.dir + [SLASH] + names[i])
              && forall p :: multiset(r.value)[p] == |Entries(disk.dir, names, p)|
  {
    hide IsFragmentName, FragmentPaths, SortPaths, Entries;
    if disk.listing.Names? {
      var dir, names := disk.dir, disk.listing.names;
      var paths := FragmentPaths(dir, names);
      SortPathsOrder(paths);
      SortPathsMembers(paths);
      SortPathsCount(paths);
      FragmentPathsAre(dir, names);
      forall p ensures multiset(SortPaths(paths))[p] == |Entries(dir, names, p)| {
        FragmentPathsCount(dir, names, p);
      }
    }
  }

  /** A fragment's provider is its stem, wherever the directory is. */
  lemma ProviderIsTheStem(dir: bytes, stem: bytes)
    requires stem != [] && SLASH !in stem
    ensures ProviderOf(dir + [SLASH] + stem + [46, 114, 101, 103, 109, 97, 110]) == stem
  {
    hide ProviderOf, IsFragmentName;
    var name := stem + EXTENSION;
    FragmentNames(name);
    assert SLASH !in name;
    ProviderOfFragment(dir, name);
    assert PathOf(dir, name) == dir + [SLASH] + stem + [46, 114, 101, 103, 109, 97, 110];
    assert ProviderOf(PathOf(dir, name)) == name[..|name| - 7];
  }

  lemma {:induction false} FragmentPathsDistinct(dir: bytes, names: seq<bytes>)
    requires Distinct(names)
    ensures Distinct(FragmentPaths(dir, names))
  {
    if names != [] {
      var n := |names| - 1;
      FragmentPathsDistinct(dir, names[..n]);
      FragmentPathsAre(dir, names[..n]);
      var front := FragmentPaths(dir, names[..n]);
      forall i | 0 <= i < |front| ensures front[i] != PathOf(dir, names[n]) {
        assert front[i] in front;
        var k :| 0 <= k < n && IsFragmentName(names[..n][k]) && front[i] == PathOf(dir, names[..n][k]);
        assert PathOf(dir, names[k])[|dir| + 1..] == names[k];
        assert PathOf(dir, names[n])[|dir| + 1..] == names[n];
      }
    }
  }

  /** Fragments of one directory have distinct paths and distinct providers. */
  lemma {:induction false} ProvidersAreDistinct(disk: Disk)
    requires ProperListing(disk) && Fragments(disk).Success?
    ensures Distinct(Fragments(disk).value) && DistinctProviders(Fragments(disk).value)
  {
    hide ProviderOf, IsFragmentName, SortPaths, FragmentPaths;
    if disk.listing.Names? {
      var names, paths := disk.listing.names, Fragments(disk).value;
      FragmentPathsDistinct(disk.dir, names);
      SortPathsDistinct(FragmentPaths(disk.dir, names));
      SortPathsMembers(FragmentPaths(disk.dir, names));
      FragmentPathsAre(disk.dir, names);
      forall i, j | 0 <= i < |paths| && 0 <= j < |paths| && ProviderOf(paths[i]) == ProviderOf(paths[j])
        ensures paths[i] == paths[j]
      {
        assert paths[i] in paths && paths[j] in paths;
        var k :| 0 <= k < |names| && IsFragmentName(names[k]) && paths[i] == PathOf(disk.dir, names[k]);
        var m :| 0 <= m < |names| && IsFragmentName(names[m]) && paths[j] == PathOf(disk.dir, names[m]);
        ProviderOfFragment(disk.dir, names[k]);
        ProviderOfFragment(disk.dir, names[m]);
      }
    }
  }
}
