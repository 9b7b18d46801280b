/** The downloader itself (src/main.rs): the `M3U8` value `build` returns,
    its four operations, and the sequence `main` runs them in. The output
    directory is a `Directory` object whose `files` map holds each file's
    path (as `read_dir` reports it) and bytes; the HTTP server is a map
    from URL to response body. A URL it lacks is a request that got no
    response; an error status still has a body, which is stored as the
    segment. */
module Downloader {
  import opened Text
  import opened Playlist
  import opened Builder
  import opened Segments

  /** Why an operation stopped: each is a `panic!` in the source. */
  datatype Panic =
    | RequestFailed(url: string)      // `send().await.unwrap()`: no response at all
    | NoTsInLink(link: string)        // `split_once(".ts").unwrap()` in `write_to_disk`
    | NoKey(failure: KeyFailure)      // the `unwrap`/`expect` calls of `concat`'s key

  datatype Outcome = Done | Panicked(panic: Panic)

  /** The output directory on disk. */
  class Directory {
    var files: map<string, seq<byte>>

    constructor (files: map<string, seq<byte>>)
      ensures this.files == files
    {
      this.files := files;
    }

    /** `read_dir`: every file of the directory once, in an order the
        operating system chooses. */
    method List() returns (listing: seq<string>)
      ensures Distinct(listing)
      ensures forall p :: p in listing <==> p in files
    {
      listing := [];
      var rest := files.Keys;
      while rest != {}
        invariant rest <= files.Keys
        invariant Distinct(listing)
        invariant forall p :: p in listing <==> p in files && p !in rest
        decreases rest
      {
        var p :| p in rest;
        listing := listing + [p];
        rest := rest - {p};
      }
    }
  }

  /** One listing of a set of paths: each path once, in some order. The
      result of `concat` does not depend on which one is taken
      (`Segments.ReassemblyIgnoresListingOrder`). */
  ghost function Enumeration(paths: set<string>): (listing: seq<string>)
    ensures Distinct(listing)
    ensures forall p :: p in listing <==> p in paths
    decreases paths
  {
    if paths == {} then []
    else
      var p :| p in paths;
      [p] + Enumeration(paths - {p})
  }

  /** The directory after `concat` succeeds on `files`: nothing but
      `concat.ts`, holding the listed files' bytes in key order. A
      `concat.ts` that was already there (it has a key only when the
      directory name holds two `-`) is listed with the others: it is
      emptied, copied into itself and deleted like every input, and the
      bytes written after that go to a file no name refers to, so the
      directory ends empty. */
  ghost function AfterConcat(dir: string, files: map<string, seq<byte>>): map<string, seq<byte>>
    requires forall p :: p in files ==> SegmentKey(p).Success?
  {
    if ConcatPath(dir) in files then map[]
    else
      var listing := Enumeration(files.Keys);
      assert AllKeyed(listing);
      SortedPathsIn(files, listing);
      map[ConcatPath(dir) := Joined(files, Sort(Keyed(listing)))]
  }

  /** The directory after `write_to_disk(body, link)` on `files`. */
  function Stored(dir: string, files: map<string, seq<byte>>, link: string, body: seq<byte>): map<string, seq<byte>>
    requires PlainLink(link)
  {
    match SegmentPath(dir, link)
    case Failure(_) => files
    case Success(path) => files[path := body]
  }

  /** The directory after the `get_url` task for `link` on `files`: a
      failed request or a name with no `.ts` leaves it as it was. */
  function Fetched(dir: string, baseUrl: string, server: map<string, seq<byte>>,
                   files: map<string, seq<byte>>, link: string): map<string, seq<byte>>
    requires PlainLink(link)
  {
    var url := FetchUrl(baseUrl, link);
    if url in server then Stored(dir, files, link, server[url]) else files
  }

  /** The directory after every spawned `get_url` task has finished, the
      tasks taken in link order. */
  function Retrieved(dir: string, baseUrl: string, server: map<string, seq<byte>>,
                     files: map<string, seq<byte>>, links: seq<string>): map<string, seq<byte>>
    requires forall i :: 0 <= i < |links| ==> PlainLink(links[i])
  {
    if links == [] then files
    else Fetched(dir, baseUrl, server, Retrieved(dir, baseUrl, server, files, links[..|links| - 1]), links[|links| - 1])
  }

  /** Retrieving one more link is retrieving it after the others. */
  lemma RetrievedStep(dir: string, baseUrl: string, server: map<string, seq<byte>>,
                      files: map<string, seq<byte>>, links: seq<string>, i: nat)
    requires i < |links| && forall k :: 0 <= k < |links| ==> PlainLink(links[k])
    ensures Retrieved(dir, baseUrl, server, files, links[..i + 1]) ==
      Fetched(dir, baseUrl, server, Retrieved(dir, baseUrl, server, files, links[..i]), links[i])
  {
    assert links[..i + 1][..i] == links[..i];
  }

  /** No link is stored under `p`. */
  predicate Untouched(dir: string, links: seq<string>, p: string)
    requires forall i :: 0 <= i < |links| ==> PlainLink(links[i])
  {
    forall i :: 0 <= i < |links| ==> SegmentPath(dir, links[i]) != Success(p)
  }

  /** Retrieval only adds or overwrites segment files: every file that was
      there is still there, and every new path is a stored segment path. */
  lemma {:induction false} RetrievedKeys(dir: string, baseUrl: string, server: map<string, seq<byte>>,
                                         files: map<string, seq<byte>>, links: seq<string>)
    requires forall i :: 0 <= i < |links| ==> PlainLink(links[i])
    ensures files.Keys <= Retrieved(dir, baseUrl, server, files, links).Keys
    ensures forall p :: p in Retrieved(dir, baseUrl, server, files, links) && p !in files ==>
      exists i :: 0 <= i < |links| && SegmentPath(dir, links[i]) == Success(p)
  {
    if links != [] {
      var n := |links| - 1;
      var init := links[..n];
      assert forall k :: 0 <= k < |init| ==> PlainLink(init[k]) && init[k] == links[k];
      var before := Retrieved(dir, baseUrl, server, files, init);
      RetrievedKeys(dir, baseUrl, server, files, init);
      RetrievedLast(dir, baseUrl, server, files, links);
      forall p | p in Retrieved(dir, baseUrl, server, files, links) && p !in files
        ensures exists i :: 0 <= i < |links| && SegmentPath(dir, links[i]) == Success(p)
      {
        if p in before {
          var i :| 0 <= i < |init| && SegmentPath(dir, init[i]) == Success(p);
        } else {
          FetchedAdds(dir, baseUrl, server, before, links[n], p);
        }
      }
      assert files.Keys <= Retrieved(dir, baseUrl, server, files, links).Keys by {
        forall p | p in files ensures p in Retrieved(dir, baseUrl, server, files, links) {
          FetchedAdds(dir, baseUrl, server, before, links[n], p);
        }
      }
    }
  }

  /** A path no link is stored under is left as it was: present exactly
      when it was, with the same bytes. */
  lemma {:induction false} RetrievedElsewhere(dir: string, baseUrl: string, server: map<string, seq<byte>>,
                                              files: map<string, seq<byte>>, links: seq<string>, p: string)
    requires forall i :: 0 <= i < |links| ==> PlainLink(links[i])
    requires Untouched(dir, links, p)
    ensures p in Retrieved(dir, baseUrl, server, files, links) <==> p in files
    ensures p in files ==> Retrieved(dir, baseUrl, server, files, links)[p] == files[p]
  {
    if links != [] {
      var n := |links| - 1;
      var init := links[..n];
      assert Untouched(dir, init, p) by {
        forall i | 0 <= i < |init| ensures SegmentPath(dir, init[i]) != Success(p) {
          assert init[i] == links[i];
        }
      }
      RetrievedElsewhere(dir, baseUrl, server, files, init, p);
      RetrievedLast(dir, baseUrl, server, files, links);
      FetchedElsewhere(dir, baseUrl, server, Retrieved(dir, baseUrl, server, files, init), links[n], p);
    }
  }

  /** The last task runs after all the others. */
  lemma RetrievedLast(dir: string, baseUrl: string, server: map<string, seq<byte>>,
                      files: map<string, seq<byte>>, links: seq<string>)
    requires links != [] && forall i :: 0 <= i < |links| ==> PlainLink(links[i])
    ensures Retrieved(dir, baseUrl, server, files, links) ==
      Fetched(dir, baseUrl, server, Retrieved(dir, baseUrl, server, files, links[..|links| - 1]), links[|links| - 1])
  {
  }

  /** The task for `link` removes no file and adds at most its own path. */
  lemma FetchedAdds(dir: string, baseUrl: string, server: map<string, seq<byte>>,
                    files: map<string, seq<byte>>, link: string, p: string)
    requires PlainLink(link)
    ensures p in files ==> p in Fetched(dir, baseUrl, server, files, link)
    ensures p in Fetched(dir, baseUrl, server, files, link) && p !in files ==> SegmentPath(dir, link) == Success(p)
  {
  }

  /** The task for `link` leaves a path it does not store to as it was. */
  lemma FetchedElsewhere(dir: string, baseUrl: string, server: map<string, seq<byte>>,
                         files: map<string, seq<byte>>, link: string, p: string)
    requires PlainLink(link) && SegmentPath(dir, link) != Success(p)
    ensures p in Fetched(dir, baseUrl, server, files, link) <==> p in files
    ensures p in files ==> Fetched(dir, baseUrl, server, files, link)[p] == files[p]
  {
  }

  /** The task for an answered link leaves the body at the link's path. */
  lemma FetchedHere(dir: string, baseUrl: string, server: map<string, seq<byte>>,
                    files: map<string, seq<byte>>, link: string, p: string)
    requires PlainLink(link) && FetchUrl(baseUrl, link) in server && SegmentPath(dir, link) == Success(p)
    ensures p in Fetched(dir, baseUrl, server, files, link)
    ensures Fetched(dir, baseUrl, server, files, link)[p] == server[FetchUrl(baseUrl, link)]
  {
  }

  /** A segment the server answers for ends up on disk with the body it
      was sent, unless a later link is stored under the same path. */
  lemma {:induction false} RetrievedLastWrite(dir: string, baseUrl: string, server: map<string, seq<byte>>,
                                              files: map<string, seq<byte>>, links: seq<string>, i: nat, p: string)
    requires forall k :: 0 <= k < |links| ==> PlainLink(links[k])
    requires i < |links| && FetchUrl(baseUrl, links[i]) in server && SegmentPath(dir, links[i]) == Success(p)
    requires forall j :: i < j < |links| ==> SegmentPath(dir, links[j]) != Success(p)
    ensures p in Retrieved(dir, baseUrl, server, files, links)
    ensures Retrieved(dir, baseUrl, server, files, links)[p] == server[FetchUrl(baseUrl, links[i])]
  {
    var n := |links| - 1;
    var init := links[..n];
    assert forall k :: 0 <= k < |init| ==> init[k] == links[k];
    RetrievedLast(dir, baseUrl, server, files, links);
    if i < n {
      assert forall j :: i < j < |init| ==> SegmentPath(dir, init[j]) != Success(p);
      RetrievedLastWrite(dir, baseUrl, server, files, init, i, p);
      FetchedElsewhere(dir, baseUrl, server, Retrieved(dir, baseUrl, server, files, init), links[n], p);
    } else {
      FetchedHere(dir, baseUrl, server, Retrieved(dir, baseUrl, server, files, init), links[n], p);
    }
  }

  /** The downloader as `build` leaves it; the HTTP client is not modelled. */
  class M3U8 {
    var indexUrl: string
    var baseUrl: string
    var data: Option<M3u8Data>
    var outputDir: string

    /** `M3U8Builder::build`: the index URL and the output directory pass
        through, the base URL is normalised, and no playlist is held yet. */
    constructor Build(b: M3U8Builder)
      ensures indexUrl == b.indexUrl && outputDir == b.outputDir
      ensures baseUrl == NormalizeBaseUrl(b.baseUrl) && EndsWith(baseUrl, "/")
      ensures data == None
    {
      indexUrl := b.indexUrl;
      baseUrl := NormalizeBaseUrl(b.baseUrl);
      data := None;
      outputDir := b.outputDir;
    }

    /** `get_index`, given the body the index URL answered with: the parsed
        playlist is kept and its links are returned. */
    method GetIndex(text: string) returns (links: seq<string>)
      modifies this`data
      ensures data == Some(M3u8Data(text, links))
      ensures links == Links(Lines(text))
    {
      var parsed := NewM3u8Data(text);
      links := parsed.links;
      data := Some(parsed);
    }

    /** `write_to_disk`: the body is stored under the segment's path,
        replacing any file already there; a link with no `.ts` panics
        before anything is written. */
    method WriteToDisk(body: seq<byte>, link: string, disk: Directory) returns (outcome: Outcome)
      requires PlainLink(link)
      modifies disk
      ensures outcome.Done? <==> Contains(link, ".ts")
      ensures outcome.Panicked? ==> outcome.panic == NoTsInLink(link)
      ensures disk.files == Stored(outputDir, old(disk.files), link, body)
    {
      var path := SegmentPath(outputDir, link);
      if path.Failure? {
        return Panicked(NoTsInLink(link));
      }
      disk.files := disk.files[path.value := body];
      outcome := Done;
    }

    /** `get_url`: requests the base URL followed by the link and writes
        what comes back. */
    method GetUrl(link: string, server: map<string, seq<byte>>, disk: Directory) returns (outcome: Outcome)
      requires PlainLink(link)
      modifies disk
      ensures outcome.Done? <==> FetchUrl(baseUrl, link) in server && Contains(link, ".ts")
      ensures FetchUrl(baseUrl, link) !in server ==> outcome == Panicked(RequestFailed(FetchUrl(baseUrl, link)))
      ensures disk.files == Fetched(outputDir, baseUrl, server, old(disk.files), link)
    {
      var url := FetchUrl(baseUrl, link);
      if url !in server {
        return Panicked(RequestFailed(url));
      }
      outcome := WriteToDisk(server[url], link, disk);
    }

    /** The spawn loop and `join_next` loop of `main`: `get_url` for every
        link, a panicking one leaving the directory as it found it. */
    method FetchAll(links: seq<string>, server: map<string, seq<byte>>, disk: Directory)
      requires forall i :: 0 <= i < |links| ==> PlainLink(links[i])
      modifies disk
      ensures disk.files == Retrieved(outputDir, baseUrl, server, old(disk.files), links)
    {
      ghost var before := disk.files;
      for i := 0 to |links|
        invariant disk.files == Retrieved(outputDir, baseUrl, server, before, links[..i])
      {
        var _ := GetUrl(links[i], server, disk);
        assert disk.files == Retrieved(outputDir, baseUrl, server, before, links[..i + 1]) by {
          RetrievedStep(outputDir, baseUrl, server, before, links, i);
        }
      }
      assert links[..|links|] == links;
    }

    /** `concat`: lists the directory, reads every path's key, sorts the
        `(key, path)` tuples, then appends each file to `concat.ts` and
        deletes it. A path without a key panics before anything changes. */
    method Concat(disk: Directory) returns (outcome: Outcome)
      modifies disk
      ensures outcome.Done? <==> forall p :: p in old(disk.files) ==> SegmentKey(p).Success?
      ensures outcome.Done? ==> disk.files == AfterConcat(outputDir, old(disk.files))
      ensures outcome.Panicked? ==> disk.files == old(disk.files)
      ensures outcome.Panicked? ==> (outcome.panic.NoKey? &&
        var f := outcome.panic.failure;
        f.path in old(disk.files) && SegmentKey(f.path) == Failure(f.error))
    {
      ghost var before := disk.files;
      var listing := disk.List();
      var keyed := KeyListing(listing);
      KeyAllKeyed(listing);
      if keyed.Failure? {
        KeyAllFailure(listing, keyed.error);
        return Panicked(NoKey(keyed.error));
      }
      assert keyed.value == Keyed(listing);
      var sorted := Sort(keyed.value);
      ConcatPlan(outputDir, before, listing);
      CreateAndCopy(disk, ConcatPath(outputDir), sorted);
      outcome := Done;
    }
  }

  /** The body of `main`: build the downloader from `config`, fetch the
      index, run `get_url` on every link and wait for all of them, then
      `concat`. `index` is the index URL's answer, `None` when the request
      fails. As with `JoinSet`, a task that panics is dropped and the
      others go on; the tasks are taken one after the other in link order. */
  method Download(config: Option<M3U8Builder>, index: Option<string>,
                  server: map<string, seq<byte>>, disk: Directory) returns (outcome: Outcome)
    requires index.Some? ==> forall i :: 0 <= i < |Links(Lines(index.value))| ==> PlainLink(Links(Lines(index.value))[i])
    modifies disk
    ensures index.None? ==> outcome == Panicked(RequestFailed(New(config).indexUrl)) && disk.files == old(disk.files)
    ensures index.Some? ==>
      var b := New(config);
      var fetched := Retrieved(b.outputDir, NormalizeBaseUrl(b.baseUrl), server, old(disk.files), Links(Lines(index.value)));
      (outcome.Done? <==> forall p :: p in fetched ==> SegmentKey(p).Success?) &&
      (outcome.Done? ==> disk.files == AfterConcat(b.outputDir, fetched)) &&
      (outcome.Panicked? ==> disk.files == fetched && outcome.panic.NoKey?)
  {
    var m := new M3U8.Build(New(config));
    if index.None? {
      return Panicked(RequestFailed(m.indexUrl));
    }
    var links := m.GetIndex(index.value);
    m.FetchAll(links, server, disk);
    outcome := m.Concat(disk);
  }

  /** The `map` and `collect` of `concat`, one path at a time: the tuples
      in listing order, or the first path whose key cannot be read. */
  method KeyListing(listing: seq<string>) returns (r: Result<seq<Entry>, KeyFailure>)
    ensures r == KeyAll(listing)
  {
    var entries: seq<Entry> := [];
    for i := 0 to |listing|
      invariant AllKeyed(listing[..i])
      invariant entries == Tagged(listing[..i], KeyOf)
    {
      var path := listing[i];
      var key := SegmentKey(path);
      if key.Failure? {
        KeyAllStopsAt(listing, i);
        return Failure(KeyFailure(path, key.error));
      }
      ListingStep(listing, i);
      entries := entries + [Entry(key.value, path)];
    }
    assert listing[..|listing|] == listing;
    KeyAllKeyed(listing);
    r := Success(entries);
  }

  /** The second half of `concat`: `target` is created empty, then each
      file in turn is appended to it and removed. The writer keeps the
      file `target` named when it was created: once `target` itself has
      been removed, what is appended no longer shows in the directory. */
  method CreateAndCopy(disk: Directory, target: string, sorted: seq<Entry>)
    requires forall k :: 0 <= k < |sorted| ==> sorted[k].path in disk.files
    requires forall a, b :: 0 <= a < b < |sorted| ==> sorted[a].path != sorted[b].path
    modifies disk
    ensures target in PathsOf(sorted) ==> disk.files == old(disk.files) - PathsOf(sorted)
    ensures target !in PathsOf(sorted) ==>
      disk.files == (old(disk.files) - PathsOf(sorted))[target := Joined(old(disk.files), sorted)]
  {
    ghost var before := disk.files;
    disk.files := disk.files[target := []];
    for j := 0 to |sorted|
      invariant target in PathsOf(sorted[..j]) ==> disk.files == before - PathsOf(sorted[..j])
      invariant target !in PathsOf(sorted[..j]) ==>
        disk.files == (before - PathsOf(sorted[..j]))[target := Joined(before, sorted[..j])]
    {
      var path := sorted[j].path;
      CopyStep(before, sorted, j);
      if path == target {
        SelfCopy(before, PathsOf(sorted[..j]), target, Joined(before, sorted[..j]));
      } else if target in PathsOf(sorted[..j]) {
        RemoveOne(before, PathsOf(sorted[..j]), path);
      } else {
        MoveInto(before, PathsOf(sorted[..j]), path, target, Joined(before, sorted[..j]));
      }
      var bytes := disk.files[path];
      if target in disk.files {
        disk.files := disk.files[target := disk.files[target] + bytes];
      }
      disk.files := disk.files - {path};
    }
    assert sorted[..|sorted|] == sorted;
  }

  /** What one turn of the copy loop adds to `concat.ts` and removes. */
  lemma CopyStep(files: map<string, seq<byte>>, sorted: seq<Entry>, j: nat)
    requires j < |sorted|
    requires forall k :: 0 <= k < |sorted| ==> sorted[k].path in files
    requires forall a, b :: 0 <= a < b < |sorted| ==> sorted[a].path != sorted[b].path
    ensures sorted[j].path !in PathsOf(sorted[..j])
    ensures Joined(files, sorted[..j + 1]) == Joined(files, sorted[..j]) + files[sorted[j].path]
    ensures PathsOf(sorted[..j + 1]) == PathsOf(sorted[..j]) + {sorted[j].path}
  {
    assert forall k :: 0 <= k < j ==> sorted[..j][k].path != sorted[j].path;
    assert sorted[..j + 1][..j] == sorted[..j];
  }

  /** Appending a file not yet moved to `target` and removing it leaves
      the directory with that file counted as moved. */
  lemma MoveInto(files: map<string, seq<byte>>, moved: set<string>, path: string, target: string, acc: seq<byte>)
    requires path in files && path !in moved && path != target
    ensures var d := (files - moved)[target := acc];
      path in d && d[path] == files[path] &&
      (d[target := acc + d[path]] - {path}) == (files - (moved + {path}))[target := acc + files[path]]
  {
  }

  /** Copying `target` into itself and removing it leaves no `target`. */
  lemma SelfCopy(files: map<string, seq<byte>>, moved: set<string>, target: string, acc: seq<byte>)
    ensures var d := (files - moved)[target := acc];
      target in d && (d[target := d[target] + d[target]] - {target}) == files - (moved + {target})
  {
  }

  /** Once `target` is gone, a turn of the copy loop only removes a file. */
  lemma RemoveOne(files: map<string, seq<byte>>, moved: set<string>, path: string)
    requires path in files && path !in moved
    ensures var d := files - moved;
      path in d && d - {path} == files - (moved + {path})
  {
  }

  /** Why the copy loop of `concat` ends in `AfterConcat`: for a listing
      of the whole directory in which every path has a key, each listed
      path is copied once, `concat.ts` is among them exactly when it was
      already there, and what is left is what `AfterConcat` describes. */
  lemma ConcatPlan(dir: string, files: map<string, seq<byte>>, listing: seq<string>)
    requires Distinct(listing) && (forall p :: p in listing <==> p in files)
    requires AllKeyed(listing)
    ensures forall p :: p in files ==> SegmentKey(p).Success?
    ensures forall k :: 0 <= k < |Sort(Keyed(listing))| ==> Sort(Keyed(listing))[k].path in files
    ensures var sorted := Sort(Keyed(listing));
      forall a, b :: 0 <= a < b < |sorted| ==> sorted[a].path != sorted[b].path
    ensures ConcatPath(dir) in PathsOf(Sort(Keyed(listing))) <==> ConcatPath(dir) in files
    ensures ConcatPath(dir) in files ==> files - PathsOf(Sort(Keyed(listing))) == AfterConcat(dir, files)
    ensures ConcatPath(dir) !in files ==>
      (files - PathsOf(Sort(Keyed(listing))))[ConcatPath(dir) := Joined(files, Sort(Keyed(listing)))]
      == AfterConcat(dir, files)
  {
    assert forall p :: p in files ==> SegmentKey(p).Success? by {
      FilesKeyed(files, listing);
    }
    var sorted := Sort(Keyed(listing));
    assert forall k :: 0 <= k < |sorted| ==> sorted[k].path in files by {
      SortedPathsIn(files, listing);
    }
    assert (forall a, b :: 0 <= a < b < |sorted| ==> sorted[a].path != sorted[b].path) &&
      (ConcatPath(dir) in PathsOf(sorted) <==> ConcatPath(dir) in files) by {
      SortedPathsDistinct(listing);
    }
    if ConcatPath(dir) in files {
      assert files - PathsOf(sorted) == AfterConcat(dir, files) by {
        AllMoved(files, listing);
      }
    } else {
      assert (files - PathsOf(sorted))[ConcatPath(dir) := Joined(files, sorted)] == AfterConcat(dir, files) by {
        ConcatLeavesOneFile(dir, files, listing);
      }
    }
  }

  /** A `concat.ts` that is already in a directory whose every file has a
      key is one of `concat`'s own inputs. */
  lemma ConcatReadsItself(dir: string, files: map<string, seq<byte>>, listing: seq<string>)
    requires Distinct(listing) && (forall p :: p in listing <==> p in files)
    requires AllKeyed(listing) && ConcatPath(dir) in files
    ensures SegmentKey(ConcatPath(dir)).Success?
    ensures exists k :: 0 <= k < |Sort(Keyed(listing))| && Sort(Keyed(listing))[k].path == ConcatPath(dir)
  {
    var i :| 0 <= i < |listing| && listing[i] == ConcatPath(dir);
    SortedPathsDistinct(listing);
    assert ConcatPath(dir) in PathsOf(Sort(Keyed(listing)));
  }

  /** Rerunning in `out-7-x`: `concat.ts` from the first run has the key 7
      like every segment, so the second `concat` succeeds and leaves the
      directory empty. */
  lemma HyphenatedRerunEmptiesDirectory()
    ensures var files := map[ConcatPath("out-7-x") := [1 as byte], JoinPath("out-7-x", "seg-2-a.ts") := [2 as byte]];
      (forall p :: p in files ==> SegmentKey(p).Success?) && AfterConcat("out-7-x", files) == map[]
  {
    HyphenatedConcatKey();
    HyphenatedDirectoryCorruptsKey();
    var files := map[ConcatPath("out-7-x") := [1 as byte], JoinPath("out-7-x", "seg-2-a.ts") := [2 as byte]];
    TwoKeyed(ConcatPath("out-7-x"), JoinPath("out-7-x", "seg-2-a.ts"), [1 as byte], [2 as byte]);
    StaleConcatEmpties("out-7-x", files);
  }

  lemma TwoKeyed(a: string, b: string, x: seq<byte>, y: seq<byte>)
    requires SegmentKey(a).Success? && SegmentKey(b).Success?
    ensures forall p :: p in map[a := x, b := y] ==> SegmentKey(p).Success?
  {
  }

  /** In `out-7-x`, `concat.ts` itself has the key 7. */
  lemma HyphenatedConcatKey()
    ensures SegmentKey(ConcatPath("out-7-x")) == Success(7)
  {
    assert ConcatPath("out-7-x") == "out" + "-" + "7" + "-" + "x/concat.ts";
    KeyBetweenFirstHyphens("out", "7", "x/concat.ts");
    assert AllDigits("7") && DecimalValue("7") == 7;
  }

  /** With a keyed `concat.ts` already present, `concat` leaves nothing. */
  lemma StaleConcatEmpties(dir: string, files: map<string, seq<byte>>)
    requires forall p :: p in files ==> SegmentKey(p).Success?
    requires ConcatPath(dir) in files
    ensures AfterConcat(dir, files) == map[]
  {
  }

  /** Once every sorted path is moved, only `concat.ts` is left, as
      `AfterConcat` describes. */
  lemma ConcatLeavesOneFile(dir: string, files: map<string, seq<byte>>, listing: seq<string>)
    requires Distinct(listing) && (forall p :: p in listing <==> p in files)
    requires AllKeyed(listing) && forall p :: p in files ==> SegmentKey(p).Success?
    requires forall k :: 0 <= k < |Sort(Keyed(listing))| ==> Sort(Keyed(listing))[k].path in files
    requires ConcatPath(dir) !in files
    ensures (files - PathsOf(Sort(Keyed(listing))))[ConcatPath(dir) := Joined(files, Sort(Keyed(listing)))]
      == AfterConcat(dir, files)
  {
    SameListing(files, listing);
    AllMoved(files, listing);
  }

  /** Moving every listed path out of the directory leaves nothing. */
  lemma AllMoved(files: map<string, seq<byte>>, listing: seq<string>)
    requires Distinct(listing) && (forall p :: p in listing <==> p in files)
    requires AllKeyed(listing)
    ensures files - PathsOf(Sort(Keyed(listing))) == map[]
  {
    SortedPathsDistinct(listing);
  }

  /** Any listing of the whole directory sorts as `Enumeration`'s does. */
  lemma SameListing(files: map<string, seq<byte>>, listing: seq<string>)
    requires Distinct(listing) && (forall p :: p in listing <==> p in files)
    requires AllKeyed(listing)
    ensures AllKeyed(Enumeration(files.Keys))
    ensures Sort(Keyed(listing)) == Sort(Keyed(Enumeration(files.Keys)))
  {
    var canonical := Enumeration(files.Keys);
    assert AllKeyed(canonical) by {
      FilesKeyed(files, listing);
    }
    SameElementsSameMultiset(listing, canonical);
    SortIgnoresListingOrder(listing, canonical);
  }

  /** When every listed path has a key, every file of the directory has one. */
  lemma FilesKeyed(files: map<string, seq<byte>>, listing: seq<string>)
    requires forall p :: p in listing <==> p in files
    requires AllKeyed(listing)
    ensures forall p :: p in files ==> SegmentKey(p).Success?
  {
    forall p | p in files ensures SegmentKey(p).Success? {
      var i :| 0 <= i < |listing| && listing[i] == p;
    }
  }
}
