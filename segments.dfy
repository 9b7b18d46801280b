/** The pure string logic of the downloader (src/main.rs): the fetch URL
    of a segment, the path `write_to_disk` stores it under, the ordering
    key `concat` reads back out of that path, the order `concat` sorts
    the segments into, and the bytes it produces. */
module Segments {
  import opened Text

  // ---------------------------------------------------------------------
  // Fetching and storing one segment

  /** `get_url`: the link is appended to the base URL as it stands. */
  function FetchUrl(baseUrl: string, link: string): (url: string)
    ensures |url| == |baseUrl| + |link|
    ensures StartsWith(url, baseUrl) && url[|baseUrl|..] == link
  {
    baseUrl + link
  }

  /** `PathBuf::push` of a relative name: a separator is added unless the
      directory is empty or already ends with one. */
  function JoinPath(dir: string, name: string): (p: string)
    ensures StartsWith(p, dir) && EndsWith(p, name)
    ensures |p| == |dir| + |name| + (if dir == [] || EndsWith(dir, "/") then 0 else 1)
    ensures |p| > |dir| + |name| ==> p[|dir|] == '/'
  {
    if dir == [] then name
    else if dir[|dir| - 1] == '/' then dir + name
    else dir + "/" + name
  }

  /** `Path::with_extension("ts")` on a plain file name: the text after the
      last `.` is replaced, unless that `.` opens the name, in which case
      `.ts` is appended. */
  function WithTsExtension(name: string): (r: string)
    ensures EndsWith(r, ".ts")
    ensures StartsWith(name, r[..|r| - 3])
    ensures name == [] || '.' !in name[1..] ==> r[..|r| - 3] == name
    ensures name != [] && '.' in name[1..] ==>
      var k := |r| - 3;
      0 < k < |name| && name[k] == '.' && '.' !in name[k + 1..]
  {
    match FindLastChar(name, '.')
    case Some(i) =>
      if i == 0 then
        assert name[1..] == name[i + 1..];
        name + ".ts"
      else
        assert name[i] == name[1..][i - 1];
        name[..i] + ".ts"
    case None =>
      assert name != [] ==> forall k :: 0 <= k < |name[1..]| ==> name[1..][k] == name[k + 1];
      name + ".ts"
  }

  /** A file name `Path::push` and `with_extension` treat as one plain
      component: no separator, and not empty, `.` or `..`. */
  predicate PlainName(name: string) {
    name != [] && name != "." && name != ".." && '/' !in name
  }

  /** The part of a link that `write_to_disk` keeps is a plain name. */
  predicate PlainLink(link: string) {
    match Find(link, ".ts")
    case None => true
    case Some(i) => PlainName(link[..i])
  }

  datatype WriteError = NoTsInName  // `split_once(".ts").unwrap()` panics

  /** The file name `write_to_disk` gives a segment link: the text before
      the first `.ts`, with its extension then set to `ts`. */
  function SegmentFileName(link: string): (r: Result<string, WriteError>)
    requires PlainLink(link)
    ensures r.Failure? <==> !Contains(link, ".ts")
    ensures r.Success? ==> EndsWith(r.value, ".ts") && '/' !in r.value
    ensures r.Success? ==> StartsWith(link, r.value[..|r.value| - 3])
  {
    match Find(link, ".ts")
    case None => Failure(NoTsInName)
    case Some(i) =>
      var name := WithTsExtension(link[..i]);
      assert link[..i][..|name| - 3] == link[..|name| - 3];
      assert name == link[..|name| - 3] + ".ts";
      Success(name)
  }

  /** The path `write_to_disk` creates for a segment link. */
  function SegmentPath(dir: string, link: string): (r: Result<string, WriteError>)
    requires PlainLink(link)
    ensures r.Failure? <==> !Contains(link, ".ts")
    ensures r.Success? ==> EndsWith(r.value, ".ts")
  {
    match SegmentFileName(link)
    case Failure(e) => Failure(e)
    case Success(name) => Success(JoinPath(dir, name))
  }

  /** A stored segment lies in the output directory: the directory, a
      separator unless it already ends in one, then the segment's file name. */
  lemma SegmentPathInDirectory(dir: string, link: string)
    requires PlainLink(link) && Contains(link, ".ts")
    ensures var p := SegmentPath(dir, link).value;
      var name := SegmentFileName(link).value;
      StartsWith(p, dir) && EndsWith(p, name) && '/' !in name &&
      |p| == |dir| + |name| + (if dir == [] || EndsWith(dir, "/") then 0 else 1) &&
      (|p| > |dir| + |name| ==> p[|dir|] == '/')
  {
  }

  /** A link whose text before its first `.` starts a `.ts` is stored
      under its own name, cut right after that `.ts`. */
  lemma DotFreeLinkKeepsName(link: string, i: nat)
    requires 0 < i && i + 3 <= |link| && link[i..i + 3] == ".ts"
    requires '.' !in link[..i] && '/' !in link[..i]
    ensures PlainLink(link) && SegmentFileName(link) == Success(link[..i + 3])
  {
    forall k: nat | k < i ensures !OccursAt(link, ".ts", k) {
      assert link[k] in link[..i];
    }
    assert OccursAt(link, ".ts", i);
    assert Find(link, ".ts") == Some(i);
    assert '.' in "." && '.' in "..";
    assert link[..i + 3] == link[..i] + ".ts";
  }

  /** `seg-0-a.ts` keeps its name. */
  lemma ExampleSegmentFileName()
    ensures PlainLink("seg-0-a.ts") && SegmentPath("m3mu", "seg-0-a.ts") == Success("m3mu/seg-0-a.ts")
  {
    SegmentNameKept();
    JoinedSegmentName();
  }

  lemma JoinedSegmentName()
    ensures JoinPath("m3mu", "seg-0-a.ts") == "m3mu/seg-0-a.ts"
  {
  }

  lemma JoinedFirstTsName()
    ensures JoinPath("m3mu", "a.ts") == "m3mu/a.ts"
  {
  }

  lemma SegmentNameKept()
    ensures PlainLink("seg-0-a.ts") && SegmentFileName("seg-0-a.ts") == Success("seg-0-a.ts")
  {
    assert "seg-0-a.ts"[7..10] == ".ts";
    assert "seg-0-a.ts"[..7] == "seg-0-a";
    DotFreeLinkKeepsName("seg-0-a.ts", 7);
    assert "seg-0-a.ts"[..10] == "seg-0-a.ts";
  }

  /** `a.tsx.ts` is cut at its first `.ts`. */
  lemma ExampleFirstTsFileName()
    ensures PlainLink("a.tsx.ts") && SegmentPath("m3mu", "a.tsx.ts") == Success("m3mu/a.ts")
  {
    FirstTsNameKept();
    JoinedFirstTsName();
  }

  lemma FirstTsNameKept()
    ensures PlainLink("a.tsx.ts") && SegmentFileName("a.tsx.ts") == Success("a.ts")
  {
    assert "a.tsx.ts"[1..4] == ".ts";
    assert "a.tsx.ts"[..1] == "a";
    DotFreeLinkKeepsName("a.tsx.ts", 1);
    assert "a.tsx.ts"[..4] == "a.ts";
  }

  /** A link without `.ts`, such as a nested playlist, cannot be stored. */
  lemma ExampleNestedPlaylistName()
    ensures PlainLink("index.m3u8") && SegmentPath("m3mu", "index.m3u8") == Failure(NoTsInName)
  {
    var c := "index.m3u8";
    assert !Contains(c, ".ts") by {
      forall k: nat | k <= |c| ensures !OccursAt(c, ".ts", k) {
        if k + 3 <= |c| {
          assert c[k..k + 3][1] == c[k + 1];
        }
      }
    }
  }

  // ---------------------------------------------------------------------
  // The ordering key `concat` reads out of a path

  datatype KeyError =
    | MissingHyphen          // one of the two `split_once("-").unwrap()` panics
    | BadNumber(text: string)  // `parse::<u32>().expect(..)` panics

  /** The text between the first and the second `-` of the WHOLE path
      string, parsed as a `u32`. */
  function SegmentKey(path: string): (r: Result<nat, KeyError>)
    ensures r.Success? ==> r.value <= U32_MAX
    ensures '-' !in path ==> r == Failure(MissingHyphen)
  {
    match FindChar(path, '-')
    case None => Failure(MissingHyphen)
    case Some(i) =>
      var rest := path[i + 1..];
      match FindChar(rest, '-')
      case None => Failure(MissingHyphen)
      case Some(j) =>
        match ParseU32(rest[..j])
        case None => Failure(BadNumber(rest[..j]))
        case Some(n) => Success(n)
  }

  /** The key of `a-d-b`, where neither `a` nor `d` holds a `-`, is `d`
      read as a `u32`, whatever `b` holds; a path with fewer than two `-`
      has no key. */
  lemma {:induction false} KeyBetweenFirstHyphens(a: string, d: string, b: string)
    requires '-' !in a && '-' !in d
    ensures SegmentKey(a + "-" + d + "-" + b) ==
      match ParseU32(d) case None => Failure(BadNumber(d)) case Some(n) => Success(n)
  {
    var p := a + "-" + d + "-" + b;
    assert p[..|a|] == a;
    FindCharAt(p, '-', |a|);
    var rest := p[|a| + 1..];
    assert rest == d + "-" + b;
    assert rest[..|d|] == d;
    FindCharAt(rest, '-', |d|);
  }

  lemma {:induction false} SingleHyphenHasNoKey(a: string, b: string)
    requires '-' !in a && '-' !in b
    ensures SegmentKey(a + "-" + b) == Failure(MissingHyphen)
  {
    var p := a + "-" + b;
    assert p[..|a|] == a;
    FindCharAt(p, '-', |a|);
    assert p[|a| + 1..] == b;
  }

  /** With a hyphen-free output directory, a link `seg-<digits>-<rest>.ts`
      is stored under a path whose key is the number its digits spell. */
  lemma WrittenSegmentKey(dir: string, digits: string, rest: string)
    requires '-' !in dir
    requires digits != [] && AllDigits(digits) && DecimalValue(digits) <= U32_MAX
    requires PlainLink("seg-" + digits + "-" + rest + ".ts")
    ensures SegmentPath(dir, "seg-" + digits + "-" + rest + ".ts").Success?
    ensures SegmentKey(SegmentPath(dir, "seg-" + digits + "-" + rest + ".ts").value)
      == Success(DecimalValue(digits))
  {
    var link := "seg-" + digits + "-" + rest + ".ts";
    var tail := SegmentNameTail(digits, rest);
    assert SegmentPath(dir, link) == Success(JoinPath(dir, "seg-" + digits + "-" + tail));
    KeyOfSegmentName(dir, digits, tail);
  }

  /** The stored name of `seg-<digits>-<rest>.ts` keeps its `seg-<digits>-`. */
  lemma SegmentNameTail(digits: string, rest: string) returns (tail: string)
    requires AllDigits(digits)
    requires PlainLink("seg-" + digits + "-" + rest + ".ts")
    ensures SegmentFileName("seg-" + digits + "-" + rest + ".ts") == Success("seg-" + digits + "-" + tail)
  {
    var head := "seg-" + digits + "-";
    var link := "seg-" + digits + "-" + rest + ".ts";
    assert link == head + rest + ".ts";
    assert '.' !in head by {
      assert forall k :: 0 <= k < |digits| ==> head[k + 4] == digits[k];
    }
    var i := FirstTsAfterHead(head, rest);
    var name := NameKeepsHead(link, i, head);
    tail := name[|head|..];
    assert name == name[..|head|] + tail;
  }

  /** The first `.ts` of `head + rest + ".ts"` lies past a dot-free head. */
  lemma FirstTsAfterHead(head: string, rest: string) returns (i: nat)
    requires '.' !in head
    ensures Find(head + rest + ".ts", ".ts") == Some(i) && i >= |head|
    ensures StartsWith(head + rest + ".ts", head)
  {
    var link := head + rest + ".ts";
    assert OccursAt(link, ".ts", |head| + |rest|);
    i := Find(link, ".ts").value;
    assert link[i] == '.';
    assert link[..|head|] == head;
  }

  /** The key of a stored `seg-<digits>-...` name in a hyphen-free directory. */
  lemma KeyOfSegmentName(dir: string, digits: string, tail: string)
    requires '-' !in dir
    requires digits != [] && AllDigits(digits) && DecimalValue(digits) <= U32_MAX
    ensures SegmentKey(JoinPath(dir, "seg-" + digits + "-" + tail)) == Success(DecimalValue(digits))
  {
    var head := DirectoryHead(dir, digits, tail);
    assert SegmentKey(head + "-" + digits + "-" + tail) == Success(DecimalValue(digits)) by {
      KeyBetweenFirstHyphens(head, digits, tail);
      assert ParseU32(digits) == Some(DecimalValue(digits));
    }
  }

  /** A hyphen-free directory joined with `seg-<digits>-<tail>` is a
      hyphen-free head, then `-<digits>-<tail>`. */
  lemma DirectoryHead(dir: string, digits: string, tail: string) returns (head: string)
    requires '-' !in dir
    ensures '-' !in head
    ensures JoinPath(dir, "seg-" + digits + "-" + tail) == head + "-" + digits + "-" + tail
  {
    var name := "seg-" + digits + "-" + tail;
    var pre: string;
    if dir == [] {
      pre := [];
    } else if dir[|dir| - 1] == '/' {
      pre := dir;
    } else {
      pre := dir + "/";
    }
    assert JoinPath(dir, name) == pre + name;
    head := pre + "seg";
    assert pre + name == head + "-" + digits + "-" + tail;
  }

  /** The name `with_extension` leaves keeps a dot-free head of the link. */
  lemma NameKeepsHead(link: string, i: nat, head: string) returns (name: string)
    requires PlainLink(link) && Find(link, ".ts") == Some(i)
    requires |head| <= i && StartsWith(link, head) && '.' !in head
    ensures SegmentFileName(link) == Success(name)
    ensures StartsWith(name, head)
  {
    name := SegmentFileName(link).value;
    var stem := link[..i];
    assert stem[..|head|] == head;
    match FindLastChar(stem, '.')
    case None =>
    case Some(k) =>
      assert stem[..k][..|head|] == head;
  }

  /** A `-` in the output directory ends up in every key: with the
      directory `out-7-x`, the segment `seg-2-a.ts` gets the key 7. */
  lemma HyphenatedDirectoryCorruptsKey()
    ensures SegmentKey(JoinPath("out-7-x", "seg-2-a.ts")) == Success(7)
  {
    assert JoinPath("out-7-x", "seg-2-a.ts") == "out" + "-" + "7" + "-" + "x/seg-2-a.ts";
    KeyBetweenFirstHyphens("out", "7", "x/seg-2-a.ts");
    assert AllDigits("7") && DecimalValue("7") == 7;
  }

  // ---------------------------------------------------------------------
  // Keying, sorting and joining the listed files

  /** One `(key, path)` tuple of `concat`. */
  datatype Entry = Entry(key: nat, path: string)

  /** Tuple order: by key, then by path. Paths of one directory differ only
      in their file names, so `Path`'s component order is string order. */
  predicate EntryLe(x: Entry, y: Entry) {
    x.key < y.key || (x.key == y.key && StrLe(x.path, y.path))
  }

  lemma EntryLeTotal(x: Entry, y: Entry)
    ensures EntryLe(x, y) || EntryLe(y, x)
  {
    StrLeTotal(x.path, y.path);
  }

  lemma EntryLeAntisymmetric(x: Entry, y: Entry)
    requires EntryLe(x, y) && EntryLe(y, x)
    ensures x == y
  {
    StrLeAntisymmetric(x.path, y.path);
  }

  lemma EntryLeTransitive(x: Entry, y: Entry, z: Entry)
    requires EntryLe(x, y) && EntryLe(y, z)
    ensures EntryLe(x, z)
  {
    if x.key == y.key == z.key {
      StrLeTransitive(x.path, y.path, z.path);
    }
  }

  predicate Sorted(es: seq<Entry>) {
    forall i, j :: 0 <= i < j < |es| ==> EntryLe(es[i], es[j])
  }

  /** Inserts `e` into a sorted sequence. */
  function Insert(e: Entry, es: seq<Entry>): (r: seq<Entry>)
    requires Sorted(es)
    ensures Sorted(r)
    ensures multiset(r) == multiset(es) + multiset{e}
  {
    if es == [] then [e]
    else if EntryLe(e, es[0]) then
      SortedCons(e, es);
      [e] + es
    else
      var tail := Insert(e, es[1..]);
      InsertBehindHead(e, es, tail);
      [es[0]] + tail
  }

  lemma SortedCons(e: Entry, es: seq<Entry>)
    requires Sorted(es) && es != [] && EntryLe(e, es[0])
    ensures Sorted([e] + es)
  {
    forall j | 0 <= j < |es| ensures EntryLe(e, es[j]) {
      if j > 0 { EntryLeTransitive(e, es[0], es[j]); }
    }
  }

  lemma InsertBehindHead(e: Entry, es: seq<Entry>, tail: seq<Entry>)
    requires Sorted(es) && es != [] && !EntryLe(e, es[0])
    requires Sorted(tail) && multiset(tail) == multiset(es[1..]) + multiset{e}
    ensures Sorted([es[0]] + tail)
    ensures multiset([es[0]] + tail) == multiset(es) + multiset{e}
  {
    EntryLeTotal(e, es[0]);
    assert es == [es[0]] + es[1..];
    forall j | 0 <= j < |tail| ensures EntryLe(es[0], tail[j]) {
      assert tail[j] in multiset(tail);
      if tail[j] != e {
        assert tail[j] in es[1..];
      }
    }
  }

  /** `files.sort_by(|a, b| a.cmp(b))`: ascending tuple order. */
  function Sort(es: seq<Entry>): (r: seq<Entry>)
    ensures Sorted(r)
    ensures multiset(r) == multiset(es)
  {
    if es == [] then []
    else
      assert es == [es[0]] + es[1..];
      Insert(es[0], Sort(es[1..]))
  }

  /** Tuple order is total, so there is one sorted arrangement of a
      multiset: any correct sort (Rust's included) gives `Sort`'s result. */
  lemma {:induction false} SortedUnique(xs: seq<Entry>, ys: seq<Entry>)
    requires Sorted(xs) && Sorted(ys) && multiset(xs) == multiset(ys)
    ensures xs == ys
  {
    if xs != [] {
      assert xs[0] in multiset(ys);
      assert ys[0] in multiset(xs);
      assert EntryLe(ys[0], xs[0]) by {
        var j :| 0 <= j < |ys| && ys[j] == xs[0];
        if j > 0 { assert EntryLe(ys[0], ys[j]); } else { EntryLeTotal(ys[0], xs[0]); }
      }
      assert EntryLe(xs[0], ys[0]) by {
        var j :| 0 <= j < |xs| && xs[j] == ys[0];
        if j > 0 { assert EntryLe(xs[0], xs[j]); } else { EntryLeTotal(xs[0], ys[0]); }
      }
      EntryLeAntisymmetric(xs[0], ys[0]);
      assert xs == [xs[0]] + xs[1..];
      assert ys == [ys[0]] + ys[1..];
      assert multiset(xs) == multiset{xs[0]} + multiset(xs[1..]);
      assert multiset(ys) == multiset{ys[0]} + multiset(ys[1..]);
      assert multiset(xs[1..]) == multiset(xs) - multiset{xs[0]};
      assert multiset(ys[1..]) == multiset(ys) - multiset{ys[0]};
      SortedUnique(xs[1..], ys[1..]);
    }
  }

  /** Every listed path has a key. */
  predicate AllKeyed(paths: seq<string>) {
    forall i :: 0 <= i < |paths| ==> SegmentKey(paths[i]).Success?
  }

  /** The key a path is sorted by; only used once every path has one. */
  function KeyOf(path: string): nat {
    match SegmentKey(path)
    case Success(n) => n
    case Failure(_) => 0
  }

  /** Each path paired with its key under `key`, in listing order. */
  function Tagged(paths: seq<string>, key: string -> nat): (es: seq<Entry>)
    ensures |es| == |paths|
    ensures forall i :: 0 <= i < |es| ==> es[i] == Entry(key(paths[i]), paths[i])
  {
    if paths == [] then [] else [Entry(key(paths[0]), paths[0])] + Tagged(paths[1..], key)
  }

  /** Tagging one more path appends one more tuple. */
  lemma {:induction false} TaggedAppend(paths: seq<string>, p: string, key: string -> nat)
    ensures Tagged(paths + [p], key) == Tagged(paths, key) + [Entry(key(p), p)]
  {
    if paths != [] {
      assert (paths + [p])[1..] == paths[1..] + [p];
      TaggedAppend(paths[1..], p, key);
    }
  }

  /** The `(key, path)` tuples of a listing in which every path has a key. */
  function Keyed(paths: seq<string>): (es: seq<Entry>)
    requires AllKeyed(paths)
    ensures |es| == |paths|
    ensures forall i :: 0 <= i < |es| ==> es[i] == Entry(SegmentKey(paths[i]).value, paths[i])
  {
    Tagged(paths, KeyOf)
  }

  /** Which listed path stopped `concat`, and why. */
  datatype KeyFailure = KeyFailure(path: string, error: KeyError)

  /** The `map` and `collect` of `concat`: the tuples in listing order, or
      the first path (in listing order) whose key cannot be read. */
  function KeyAll(paths: seq<string>): Result<seq<Entry>, KeyFailure> {
    if paths == [] then Success([])
    else match SegmentKey(paths[0])
      case Failure(e) => Failure(KeyFailure(paths[0], e))
      case Success(k) =>
        match KeyAll(paths[1..])
        case Failure(f) => Failure(f)
        case Success(es) => Success([Entry(k, paths[0])] + es)
  }

  /** Keying succeeds exactly when every path has a key, and then gives
      the keyed tuples. */
  lemma {:induction false} KeyAllKeyed(paths: seq<string>)
    ensures KeyAll(paths).Success? <==> AllKeyed(paths)
    ensures AllKeyed(paths) ==> KeyAll(paths) == Success(Keyed(paths))
  {
    if paths != [] {
      AllKeyedCons(paths);
      KeyAllKeyed(paths[1..]);
      if AllKeyed(paths) {
        KeyedCons(paths);
      }
    }
  }

  /** A failure of the keying names a listed path and that path's key error. */
  lemma {:induction false} KeyAllFailure(paths: seq<string>, f: KeyFailure)
    requires KeyAll(paths) == Failure(f)
    ensures f.path in paths && SegmentKey(f.path) == Failure(f.error)
  {
    if SegmentKey(paths[0]).Success? {
      var tail := paths[1..];
      assert KeyAll(tail) == Failure(f);
      KeyAllFailure(tail, f);
      var i :| 0 <= i < |tail| && tail[i] == f.path;
      assert paths[i + 1] == f.path;
    }
  }

  /** A listing is keyed exactly when its first path and the rest are. */
  lemma AllKeyedCons(paths: seq<string>)
    requires paths != []
    ensures AllKeyed(paths) <==> SegmentKey(paths[0]).Success? && AllKeyed(paths[1..])
  {
    assert forall i :: 1 <= i < |paths| ==> paths[1..][i - 1] == paths[i];
  }

  /** The tuples of a keyed listing: its first path's, then the rest's. */
  lemma KeyedCons(paths: seq<string>)
    requires paths != [] && AllKeyed(paths) && AllKeyed(paths[1..])
    ensures Keyed(paths) == [Entry(SegmentKey(paths[0]).value, paths[0])] + Keyed(paths[1..])
  {
  }

  /** The failure `KeyAll` reports is the first path without a key. */
  lemma {:induction false} KeyAllFirstFailure(paths: seq<string>, i: nat)
    requires i < |paths| && SegmentKey(paths[i]).Failure?
    requires forall j :: 0 <= j < i ==> SegmentKey(paths[j]).Success?
    ensures KeyAll(paths) == Failure(KeyFailure(paths[i], SegmentKey(paths[i]).error))
  {
    if i > 0 {
      KeyAllFirstFailure(paths[1..], i - 1);
    }
  }

  /** `KeyAllFirstFailure` for a listing read up to a path without a key. */
  lemma KeyAllStopsAt(paths: seq<string>, i: nat)
    requires i < |paths| && AllKeyed(paths[..i]) && SegmentKey(paths[i]).Failure?
    ensures KeyAll(paths) == Failure(KeyFailure(paths[i], SegmentKey(paths[i]).error))
  {
    forall j | 0 <= j < i ensures SegmentKey(paths[j]).Success? {
      assert paths[..i][j] == paths[j];
    }
    KeyAllFirstFailure(paths, i);
  }

  /** One more keyed path extends the keyed prefix and its tagged entries. */
  lemma ListingStep(paths: seq<string>, i: nat)
    requires i < |paths| && AllKeyed(paths[..i]) && SegmentKey(paths[i]).Success?
    ensures AllKeyed(paths[..i + 1])
    ensures Tagged(paths[..i + 1], KeyOf) == Tagged(paths[..i], KeyOf) + [Entry(SegmentKey(paths[i]).value, paths[i])]
  {
    assert paths[..i + 1] == paths[..i] + [paths[i]];
    TaggedAppend(paths[..i], paths[i], KeyOf);
  }

  /** How often an entry occurs among tagged paths: as often as its path
      occurs, when the key is that path's key. */
  lemma {:induction false} TaggedCount(paths: seq<string>, key: string -> nat, x: Entry)
    ensures multiset(Tagged(paths, key))[x] == if key(x.path) == x.key then multiset(paths)[x.path] else 0
  {
    if paths != [] {
      var tail := paths[1..];
      TaggedCount(tail, key, x);
      CountCons(Entry(key(paths[0]), paths[0]), Tagged(tail, key), x);
      CountCons(paths[0], tail, x.path);
      assert paths == [paths[0]] + tail;
    }
  }

  /** How often `y` occurs in a sequence with `h` in front. */
  lemma CountCons<T>(h: T, t: seq<T>, y: T)
    ensures multiset([h] + t)[y] == (if h == y then 1 else 0) + multiset(t)[y]
  {
    assert multiset([h] + t) == multiset{h} + multiset(t);
  }

  /** Tagging permutations of a listing gives permutations of tuples. */
  lemma TaggedPermutation(l1: seq<string>, l2: seq<string>, key: string -> nat)
    requires multiset(l1) == multiset(l2)
    ensures multiset(Tagged(l1, key)) == multiset(Tagged(l2, key))
  {
    forall x: Entry
      ensures multiset(Tagged(l1, key))[x] == multiset(Tagged(l2, key))[x]
    {
      TaggedCount(l1, key, x);
      TaggedCount(l2, key, x);
    }
  }

  /** The paths of some tuples. */
  function PathsOf(es: seq<Entry>): set<string> {
    set i | 0 <= i < |es| :: es[i].path
  }

  /** Rearranging the tagged paths of a listing without repetitions keeps
      every path, once. */
  lemma TaggedPaths(paths: seq<string>, key: string -> nat, sorted: seq<Entry>)
    requires Distinct(paths) && multiset(sorted) == multiset(Tagged(paths, key))
    ensures forall a, b :: 0 <= a < b < |sorted| ==> sorted[a].path != sorted[b].path
    ensures forall p :: p in paths <==> p in PathsOf(sorted)
  {
    var es := Tagged(paths, key);
    forall a, b | 0 <= a < b < |sorted| ensures sorted[a].path != sorted[b].path {
      if sorted[a].path == sorted[b].path {
        assert sorted[a] in multiset(es) && sorted[b] in multiset(es);
        TwoPositions(sorted, a, b);
        TaggedCount(paths, key, sorted[a]);
        DistinctCount(paths, sorted[a].path);
      }
    }
    forall p ensures p in paths <==> p in PathsOf(sorted) {
      if p in paths {
        var i :| 0 <= i < |paths| && paths[i] == p;
        assert es[i] in multiset(sorted);
        var k :| 0 <= k < |sorted| && sorted[k] == es[i];
      }
      if p in PathsOf(sorted) {
        var k :| 0 <= k < |sorted| && sorted[k].path == p;
        assert sorted[k] in multiset(es);
      }
    }
  }

  /** Sorting the tuples of a listing without repetitions keeps every
      path, once. */
  lemma SortedPathsDistinct(listing: seq<string>)
    requires Distinct(listing) && AllKeyed(listing)
    ensures var sorted := Sort(Keyed(listing));
      forall a, b :: 0 <= a < b < |sorted| ==> sorted[a].path != sorted[b].path
    ensures forall p :: p in listing <==> p in PathsOf(Sort(Keyed(listing)))
  {
    TaggedPaths(listing, KeyOf, Sort(Tagged(listing, KeyOf)));
  }

  /** Listings that are permutations of each other yield the same tuples,
      up to order. */
  lemma KeyedPermutation(l1: seq<string>, l2: seq<string>)
    requires AllKeyed(l1) && AllKeyed(l2) && multiset(l1) == multiset(l2)
    ensures multiset(Keyed(l1)) == multiset(Keyed(l2))
  {
    TaggedPermutation(l1, l2, KeyOf);
  }

  /** Listings that are permutations of each other sort to the same tuples. */
  lemma SortIgnoresListingOrder(l1: seq<string>, l2: seq<string>)
    requires AllKeyed(l1) && AllKeyed(l2) && multiset(l1) == multiset(l2)
    ensures Sort(Keyed(l1)) == Sort(Keyed(l2))
  {
    KeyedPermutation(l1, l2);
    SortedUnique(Sort(Keyed(l1)), Sort(Keyed(l2)));
  }

  /** Sorting the tuples of a listing of a directory names only its files. */
  lemma SortedPathsIn(files: map<string, seq<byte>>, listing: seq<string>)
    requires forall i :: 0 <= i < |listing| ==> listing[i] in files
    requires AllKeyed(listing)
    ensures forall k :: 0 <= k < |Sort(Keyed(listing))| ==> Sort(Keyed(listing))[k].path in files
  {
    var sorted := Sort(Keyed(listing));
    forall k | 0 <= k < |sorted| ensures sorted[k].path in files {
      assert sorted[k] in multiset(Keyed(listing));
    }
  }

  /** The bytes of the listed files, one after the other, in tuple order. */
  function Joined(files: map<string, seq<byte>>, es: seq<Entry>): seq<byte>
    requires forall i :: 0 <= i < |es| ==> es[i].path in files
  {
    if es == [] then []
    else Joined(files, es[..|es| - 1]) + files[es[|es| - 1].path]
  }

  /** `concat.ts`: `push("concat")` then `with_extension("ts")`. */
  function ConcatPath(dir: string): (p: string)
    ensures StartsWith(p, dir) && EndsWith(p, "concat.ts")
    ensures |p| == |dir| + 9 + (if dir == [] || EndsWith(dir, "/") then 0 else 1)
    ensures |p| > |dir| + 9 ==> p[|dir|] == '/'
  {
    JoinPath(dir, "concat.ts")
  }

  /** What `concat` writes into `concat.ts` for a listing of the directory,
      or the first path that stops it. */
  function Reassembled(files: map<string, seq<byte>>, listing: seq<string>): (r: Result<seq<byte>, KeyFailure>)
    requires forall i :: 0 <= i < |listing| ==> listing[i] in files
    ensures r.Success? <==> AllKeyed(listing)
  {
    KeyAllKeyed(listing);
    match KeyAll(listing)
    case Failure(f) => Failure(f)
    case Success(es) =>
      SortedPathsIn(files, listing);
      Success(Joined(files, Sort(es)))
  }

  /** When every listed path has a key, `concat` writes the files' bytes
      in tuple order. */
  lemma ReassembledValue(files: map<string, seq<byte>>, listing: seq<string>)
    requires forall i :: 0 <= i < |listing| ==> listing[i] in files
    requires AllKeyed(listing)
    ensures forall k :: 0 <= k < |Sort(Keyed(listing))| ==> Sort(Keyed(listing))[k].path in files
    ensures Reassembled(files, listing) == Success(Joined(files, Sort(Keyed(listing))))
  {
    KeyAllKeyed(listing);
    SortedPathsIn(files, listing);
  }

  /** The result of `concat` does not depend on the order `read_dir`
      lists the directory in. */
  lemma ReassemblyIgnoresListingOrder(files: map<string, seq<byte>>, l1: seq<string>, l2: seq<string>)
    requires forall i :: 0 <= i < |l1| ==> l1[i] in files
    requires forall i :: 0 <= i < |l2| ==> l2[i] in files
    requires multiset(l1) == multiset(l2)
    ensures Reassembled(files, l1).Success? <==> Reassembled(files, l2).Success?
    ensures Reassembled(files, l1).Success? ==> Reassembled(files, l1) == Reassembled(files, l2)
  {
    assert AllKeyed(l1) <==> AllKeyed(l2) by {
      if AllKeyed(l1) {
        forall i | 0 <= i < |l2| ensures SegmentKey(l2[i]).Success? {
          assert l2[i] in multiset(l1);
        }
      }
      if AllKeyed(l2) {
        forall i | 0 <= i < |l1| ensures SegmentKey(l1[i]).Success? {
          assert l1[i] in multiset(l2);
        }
      }
    }
    if AllKeyed(l1) {
      ReassembledValue(files, l1);
      ReassembledValue(files, l2);
      SortIgnoresListingOrder(l1, l2);
    }
  }

  /** A directory holding only `concat.ts` cannot be reassembled again when
      the directory name has no `-`. */
  lemma RerunOnReassembledDirectory(dir: string)
    requires '-' !in dir
    ensures KeyAll([ConcatPath(dir)]).Failure?
  {
    var p := ConcatPath(dir);
    assert '-' !in p;
  }
}
