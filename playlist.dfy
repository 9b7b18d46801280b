/** The playlist line filter of `M3u8Data::new` (src/m3u8.rs): the raw
    playlist text is split into lines exactly as Rust's `str::lines` does,
    and every line that does not start with `#` becomes a link, in order. */
module Playlist {
  import opened Text

  /** A playlist held as its raw text and the links taken from it. */
  datatype M3u8Data = M3u8Data(raw: string, links: seq<string>)

  /** Drops one trailing carriage return. */
  function StripCr(line: string): string {
    if line != [] && line[|line| - 1] == '\r' then line[..|line| - 1] else line
  }

  /** Rust's `str::lines`: the text is cut after every `\n`; each piece
      loses its `\n` and then one `\r` right before it; a final piece with
      no `\n` is kept as it is, and a terminating `\n` yields no empty
      last line. */
  function Lines(s: string): (lines: seq<string>)
    ensures forall i :: 0 <= i < |lines| ==> '\n' !in lines[i]
    ensures s == [] <==> lines == []
    decreases |s|
  {
    if s == [] then []
    else match FindChar(s, '\n')
      case None => [s]
      case Some(i) => [StripCr(s[..i])] + Lines(s[i + 1..])
  }

  /** The text made of every line followed by `eol`. */
  function Terminated(lines: seq<string>, eol: string): string {
    if lines == [] then [] else lines[0] + eol + Terminated(lines[1..], eol)
  }

  /** Lines that end in `\n` are read back one for one, provided none
      of them holds a `\n` or ends in a `\r` (which `lines` would strip). */
  lemma {:induction false} LinesOfLfTerminated(lines: seq<string>)
    requires forall i :: 0 <= i < |lines| ==> '\n' !in lines[i] && !EndsWith(lines[i], "\r")
    ensures Lines(Terminated(lines, "\n")) == lines
  {
    if lines != [] {
      var s := Terminated(lines, "\n");
      var rest := Terminated(lines[1..], "\n");
      var n := |lines[0]|;
      assert s == lines[0] + "\n" + rest;
      assert s[..n] == lines[0];
      FindCharAt(s, '\n', n);
      assert s[n + 1..] == rest;
      assert StripCr(lines[0]) == lines[0];
      LinesOfLfTerminated(lines[1..]);
    }
  }

  /** Lines that end in `\r\n` are read back one for one, whatever they end in. */
  lemma {:induction false} LinesOfCrlfTerminated(lines: seq<string>)
    requires forall i :: 0 <= i < |lines| ==> '\n' !in lines[i]
    ensures Lines(Terminated(lines, "\r\n")) == lines
  {
    if lines != [] {
      var s := Terminated(lines, "\r\n");
      var rest := Terminated(lines[1..], "\r\n");
      var n := |lines[0]|;
      assert s == lines[0] + "\r\n" + rest;
      assert s[..n + 1] == lines[0] + "\r";
      FindCharAt(s, '\n', n + 1);
      assert s[n + 2..] == rest;
      assert StripCr(lines[0] + "\r") == lines[0];
      LinesOfCrlfTerminated(lines[1..]);
    }
  }

  /** A comment or directive line of the playlist: `line.starts_with("#")`. */
  predicate IsComment(line: string) {
    line != [] && line[0] == '#'
  }

  /** The lines the loop of `M3u8Data::new` keeps: those not starting with `#`. */
  function Links(lines: seq<string>): (links: seq<string>)
    ensures |links| <= |lines|
  {
    if lines == [] then []
    else
      var last := lines[|lines| - 1];
      Links(lines[..|lines| - 1]) + (if IsComment(last) then [] else [last])
  }

  /** The positions of the kept lines: `Links(lines)` is exactly the
      subsequence of `lines` at the non-comment positions, in order. */
  function KeptIndices(lines: seq<string>): (ix: seq<nat>)
    ensures |ix| == |Links(lines)|
    ensures forall k :: 0 <= k < |ix| ==> ix[k] < |lines| && Links(lines)[k] == lines[ix[k]]
    ensures forall k, m :: 0 <= k < m < |ix| ==> ix[k] < ix[m]
    ensures forall j :: 0 <= j < |lines| ==> (j in ix <==> !IsComment(lines[j]))
  {
    if lines == [] then []
    else
      var n := |lines| - 1;
      var init := lines[..n];
      var ix := KeptIndices(init);
      assert Links(lines) == Links(init) + (if IsComment(lines[n]) then [] else [lines[n]]);
      assert forall j :: 0 <= j < n ==> init[j] == lines[j];
      if IsComment(lines[n]) then ix else ix + [n]
  }

  /** A line is a link exactly when it is a line of the playlist that is
      not a comment; in particular blank lines are kept. */
  lemma LinksMembership(lines: seq<string>, l: string)
    ensures l in Links(lines) <==> l in lines && !IsComment(l)
  {
    var ix := KeptIndices(lines);
    var links := Links(lines);
    if l in links {
      var k :| 0 <= k < |links| && links[k] == l;
      assert ix[k] in ix;
    }
    if l in lines && !IsComment(l) {
      var j :| 0 <= j < |lines| && lines[j] == l;
      assert j in ix;
      var k :| 0 <= k < |ix| && ix[k] == j;
    }
  }

  /** No line of the filtered links is a comment, so filtering again changes nothing. */
  lemma {:induction false} LinksOfCommentFree(lines: seq<string>)
    requires forall j :: 0 <= j < |lines| ==> !IsComment(lines[j])
    ensures Links(lines) == lines
  {
    if lines != [] {
      LinksOfCommentFree(lines[..|lines| - 1]);
      assert lines == lines[..|lines| - 1] + [lines[|lines| - 1]];
    }
  }

  lemma LinksIdempotent(lines: seq<string>)
    ensures Links(Links(lines)) == Links(lines)
  {
    var links := Links(lines);
    forall j | 0 <= j < |links|
      ensures !IsComment(links[j])
    {
      LinksMembership(lines, links[j]);
    }
    LinksOfCommentFree(links);
  }

  /** Filtering keeps every line exactly when no line is a comment. */
  lemma {:induction false} LinksLength(lines: seq<string>)
    ensures |Links(lines)| == |lines| <==> forall j :: 0 <= j < |lines| ==> !IsComment(lines[j])
  {
    if lines != [] {
      var n := |lines| - 1;
      LinksLength(lines[..n]);
      assert forall j :: 0 <= j < n ==> lines[..n][j] == lines[j];
    }
  }

  /** `M3u8Data::new`: keeps the text and pushes each non-`#` line, in order. */
  method NewM3u8Data(raw: string) returns (data: M3u8Data)
    ensures data.raw == raw
    ensures data.links == Links(Lines(raw))
  {
    var lines := Lines(raw);
    var links: seq<string> := [];
    for i := 0 to |lines|
      invariant links == Links(lines[..i])
    {
      assert lines[..i + 1][..i] == lines[..i];
      if IsComment(lines[i]) {
        continue;
      }
      links := links + [lines[i]];
    }
    assert lines[..|lines|] == lines;
    data := M3u8Data(raw, links);
  }

  /** A media playlist with one directive and two segments yields the two
      segment names, in order. */
  lemma ExamplePlaylist()
    ensures Links(Lines("#EXTM3U\nseg-0-a.ts\nseg-1-b.ts\n")) == ["seg-0-a.ts", "seg-1-b.ts"]
  {
    ExampleText();
    LinesOfLfTerminated(["#EXTM3U", "seg-0-a.ts", "seg-1-b.ts"]);
    ExampleLinks();
  }

  lemma ExampleText()
    ensures Terminated(["#EXTM3U", "seg-0-a.ts", "seg-1-b.ts"], "\n") == "#EXTM3U\nseg-0-a.ts\nseg-1-b.ts\n"
  {
  }

  lemma ExampleLinks()
    ensures Links(["#EXTM3U", "seg-0-a.ts", "seg-1-b.ts"]) == ["seg-0-a.ts", "seg-1-b.ts"]
  {
    var a: seq<string> := ["#EXTM3U", "seg-0-a.ts", "seg-1-b.ts"];
    assert a[..2] == ["#EXTM3U", "seg-0-a.ts"];
    assert a[..2][..1] == ["#EXTM3U"];
    assert a[..2][..1][..0] == [];
  }
}
