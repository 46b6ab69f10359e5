/** The directory walk: every regular file in the dataset directory is parsed
    as a tile name and collected, in listing order, together with its path.
    The first unreadable entry or unparsable file name aborts the whole run. */
module Discovery {
  import opened Wrappers
  import opened TileName

  /** One item of the directory listing: the entry's full path and whether it
      is a regular file, or an entry the listing could not read. */
  datatype DirEntry = Entry(path: string, isFile: bool) | EntryError

  /** Why a run aborts: an unreadable entry, or a file whose name does not
      parse. */
  datatype RunError = EntryUnreadable | BadName(reason: TileError)

  /** A collected tile: the file's path and its address. */
  type Tile = (string, MetaData)

  /** The path of an entry that is a regular file, as a list of zero or one. */
  function FilePath(e: DirEntry): seq<string> {
    if e.Entry? && e.isFile then [e.path] else []
  }

  /** `files` pairs each of `paths`, in order, with that path's address. */
  predicate Labelled(files: seq<Tile>, paths: seq<string>) {
    && |files| == |paths|
    && (forall j :: 0 <= j < |files| ==> files[j].0 == paths[j])
    && (forall j :: 0 <= j < |files| ==> ParseTile(files[j].0) == Success(files[j].1))
  }

  /** Extending both lists by a path and its own address keeps them labelled. */
  lemma LabelledSnoc(files: seq<Tile>, paths: seq<string>, t: Tile)
    requires Labelled(files, paths) && ParseTile(t.0) == Success(t.1)
    ensures Labelled(files + [t], paths + [t.0])
  {
    var f, p := files + [t], paths + [t.0];
    assert f[|files|] == t && p[|files|] == t.0;
    forall j | 0 <= j < |files| ensures f[j] == files[j] && p[j] == paths[j] {
    }
  }

  /** What one entry contributes: nothing for a non-file, one tile for a file
      whose name parses, an error otherwise. */
  function Contribution(e: DirEntry): (r: Result<seq<Tile>, RunError>)
    ensures r.Success? ==> |r.value| == |FilePath(e)|
    ensures r.Success? && r.value != [] ==> r.value[0].0 == e.path && ParseTile(e.path) == Success(r.value[0].1)
    ensures r.Failure? <==> e.EntryError? || (e.isFile && ParseTile(e.path).Failure?)
  {
    match e
    case EntryError => Failure(EntryUnreadable)
    case Entry(path, isFile) =>
      if !isFile then Success([])
      else match ParseTile(path)
        case Failure(err) => Failure(BadName(err))
        case Success(m) => Success([(path, m)])
  }

  /** The tiles collected from a listing, entry by entry, stopping at the
      first failure. */
  function Collect(es: seq<DirEntry>): Result<seq<Tile>, RunError>
    decreases |es|
  {
    if es == [] then Success([])
    else match Collect(es[..|es| - 1])
      case Failure(err) => Failure(err)
      case Success(files) =>
        match Contribution(es[|es| - 1])
        case Failure(err) => Failure(err)
        case Success(more) => Success(files + more)
  }

  /** Collecting one more entry: the failure sticks, or the entry's
      contribution is appended. */
  lemma CollectSnoc(es: seq<DirEntry>, e: DirEntry)
    ensures Collect(es + [e]) ==
      if Collect(es).Failure? then Collect(es)
      else if Contribution(e).Failure? then Failure(Contribution(e).error)
      else Success(Collect(es).value + Contribution(e).value)
  {
    assert (es + [e])[..|es + [e]| - 1] == es;
  }

  /** `CollectSnoc` for the prefix of a listing that a loop has processed. */
  lemma CollectNext(es: seq<DirEntry>, i: nat)
    requires i < |es|
    ensures Collect(es[..i + 1]) ==
      if Collect(es[..i]).Failure? then Collect(es[..i])
      else if Contribution(es[i]).Failure? then Failure(Contribution(es[i]).error)
      else Success(Collect(es[..i]).value + Contribution(es[i]).value)
  {
    assert es[..i + 1] == es[..i] + [es[i]];
    CollectSnoc(es[..i], es[i]);
  }

  /** The collection loop. */
  method CollectTiles(entries: seq<DirEntry>) returns (r: Result<seq<Tile>, RunError>)
    ensures r == Collect(entries)
  {
    var files: seq<Tile> := [];
    var i := 0;
    while i < |entries|
      invariant 0 <= i <= |entries|
      invariant Collect(entries[..i]) == Success(files)
    {
      CollectNext(entries, i);
      match entries[i]
      case EntryError =>
        FailureSticks(entries, i + 1);
        return Failure(EntryUnreadable);
      case Entry(path, isFile) =>
        if isFile {
          var parsed := ParseTile(path);
          if parsed.Failure? {
            FailureSticks(entries, i + 1);
            return Failure(BadName(parsed.error));
          }
          assert Contribution(entries[i]) == Success([(path, parsed.value)]);
          files := files + [(path, parsed.value)];
        } else {
          assert Contribution(entries[i]) == Success([]);
          assert files + [] == files;
        }
      i := i + 1;
    }
    assert entries[..i] == entries;
    return Success(files);
  }

  /** Once a prefix of the listing fails, the run fails with that error. */
  lemma {:induction false} FailureSticks(es: seq<DirEntry>, k: nat)
    requires k <= |es| && Collect(es[..k]).Failure?
    ensures Collect(es) == Collect(es[..k])
    decreases |es| - k
  {
    if k == |es| {
      assert es[..k] == es;
    } else {
      assert es[..k + 1][..k] == es[..k];
      FailureSticks(es, k + 1);
    }
  }

  /** The paths of the regular files in a listing, in listing order. */
  function FilePaths(es: seq<DirEntry>): seq<string> {
    if es == [] then [] else FilePath(es[0]) + FilePaths(es[1..])
  }

  /** Why a single entry would abort the run, if it would. */
  function EntryFailure(e: DirEntry): Option<RunError> {
    match e
    case EntryError => Some(EntryUnreadable)
    case Entry(path, isFile) =>
      if isFile && ParseTile(path).Failure? then Some(BadName(ParseTile(path).error)) else None
  }

  /** The failure of the first entry, in listing order, that has one. */
  function FirstFailure(es: seq<DirEntry>): Option<RunError> {
    if es == [] then None
    else if EntryFailure(es[0]).Some? then EntryFailure(es[0])
    else FirstFailure(es[1..])
  }

  lemma {:induction false} FilePathsSnoc(es: seq<DirEntry>, e: DirEntry)
    ensures FilePaths(es + [e]) == FilePaths(es) + FilePath(e)
    decreases |es|
  {
    if es == [] {
      assert [] + [e] == [e];
      assert [e][1..] == [];
    } else {
      assert (es + [e])[1..] == es[1..] + [e];
      FilePathsSnoc(es[1..], e);
    }
  }

  lemma {:induction false} FirstFailureSnoc(es: seq<DirEntry>, e: DirEntry)
    ensures FirstFailure(es + [e]) == if FirstFailure(es).Some? then FirstFailure(es) else EntryFailure(e)
    decreases |es|
  {
    if es == [] {
      assert [] + [e] == [e];
      assert [e][1..] == [];
    } else {
      assert (es + [e])[1..] == es[1..] + [e];
      FirstFailureSnoc(es[1..], e);
    }
  }

  /** The run fails exactly when some entry is unreadable or some file name
      does not parse, and then with the error of the first such entry. */
  lemma {:induction false} CollectFailsAtFirst(es: seq<DirEntry>)
    ensures Collect(es).Success? <==> FirstFailure(es).None?
    ensures Collect(es).Failure? ==> Some(Collect(es).error) == FirstFailure(es)
    decreases |es|
  {
    if es != [] {
      var init, last := es[..|es| - 1], es[|es| - 1];
      SplitLast([], es);
      CollectSnoc(init, last);
      CollectFailsAtFirst(init);
      FirstFailureSnoc(init, last);
    }
  }

  /** On success the run holds one tile per regular file, in listing order,
      each paired with the parse of its own path; other entries are skipped. */
  lemma {:induction false} CollectKeepsEveryFile(es: seq<DirEntry>)
    requires Collect(es).Success?
    ensures Labelled(Collect(es).value, FilePaths(es))
    decreases |es|
  {
    if es != [] {
      var init, last := es[..|es| - 1], es[|es| - 1];
      SplitLast([], es);
      CollectSnoc(init, last);
      CollectKeepsEveryFile(init);
      FilePathsSnoc(init, last);
      var more := Contribution(last).value;
      if more == [] {
        assert Collect(es).value == Collect(init).value + [];
        assert FilePaths(es) == FilePaths(init) + [];
      } else {
        assert more == [more[0]];
        LabelledSnoc(Collect(init).value, FilePaths(init), more[0]);
      }
    }
  }

  /** Runs compose: collecting two listings one after the other is collecting
      their concatenation. */
  lemma {:induction false} CollectAppend(a: seq<DirEntry>, b: seq<DirEntry>)
    requires Collect(a).Success? && Collect(b).Success?
    ensures Collect(a + b) == Success(Collect(a).value + Collect(b).value)
    decreases |b|
  {
    if b == [] {
      assert a + b == a;
      assert Collect(a).value + Collect(b).value == Collect(a).value;
    } else {
      var init, last := b[..|b| - 1], b[|b| - 1];
      SplitLast(a, b);
      CollectSnoc(init, last);
      CollectAppend(a, init);
      CollectSnoc(a + init, last);
      AppendAssoc(Collect(a).value, Collect(init).value, Contribution(last).value);
    }
  }

  lemma AppendAssoc<T>(x: seq<T>, y: seq<T>, z: seq<T>)
    ensures (x + y) + z == x + (y + z)
  {
  }

  lemma SplitLast<T>(a: seq<T>, b: seq<T>)
    requires b != []
    ensures b[..|b| - 1] + [b[|b| - 1]] == b
    ensures a + b == (a + b[..|b| - 1]) + [b[|b| - 1]]
  {
    assert b[..|b| - 1] + [b[|b| - 1]] == b;
  }

  /** Nothing is deduplicated: a listing seen twice yields every tile twice,
      even though each address then appears more than once. */
  lemma DuplicatesKept(es: seq<DirEntry>)
    requires Collect(es).Success?
    ensures Collect(es + es) == Success(Collect(es).value + Collect(es).value)
  {
    CollectAppend(es, es);
  }
}
