# m3mu-downloader, modelled in Dafny

m3mu-downloader fetches an HLS media playlist and downloads every segment it
names into an output directory. It then reassembles the segments into one
`concat.ts`, ordered by the number between the first two hyphens of each
file's path, output directory included. A `ProgressTracker` type can render a progress line for a single
transfer: a fifteen-cell bar, the elapsed time and an estimate of the time
left.

The model has six modules:

- `Text` holds the Rust string behaviour the program relies on:
  - `find`, `split_once` and `rfind`;
  - `{}` formatting and `parse::<u32>`;
  - the order of strings.
- `Playlist` models `M3u8Data::new` and `str::lines`.
- `Builder` models the settings of `M3U8Builder` and the base-URL
  normalisation of `build`.
- `Segments` holds the pure logic of `src/main.rs`:
  - the fetch URL;
  - the path a segment is written to;
  - the key `concat` reads out of a path;
  - the tuple sort;
  - the bytes of `concat.ts`.
- `Downloader` models the `M3U8` object and `main`:
  - the output directory is a `Directory` object whose `files` map the
    methods update;
  - the HTTP server is a map from URL to body. A URL it lacks is a request
    that got no response; an error status still has a body, which is stored
    as the segment.
- `Tracker` models the integer bookkeeping of `ProgressTracker`. The clock
  is a nanosecond count passed in by the caller.

Where the code and the design description disagree, the model follows the
code:

- Blank playlist lines are kept as links. Only lines starting with `#` are
  dropped (`src/m3u8.rs:11`).
- A segment task that panics does not stop the others or the
  reassembly. The `JoinSet` results are discarded (`src/main.rs:138`).
- The ordering key is the text between the first two `-` of the whole
  path string, output directory included (`src/main.rs:80-88`). No other
  naming pattern is recognised.
- Master-playlist resolution does not exist in the code: `master_url` is
  read but never used.

## Model

| member | source | states |
|---|---|---|
| Text.Find | src/main.rs:46 | `str::find`: the result is an occurrence of the pattern with no earlier one, and it is `None` exactly when the pattern does not occur |
| Text.FindChar | src/main.rs:80-88 | `split_once("-")`: the result is the first `-` and nothing before it is a `-`; it is `None` exactly when there is no `-` |
| Text.FindLastChar | src/main.rs:50 | `rfind('.')` as used by `with_extension`: the result is the last `.` and nothing after it is a `.`; it is `None` exactly when there is no `.` |
| Text.DecimalRoundTrip | src/tracker.rs:57 | reading back the digits that `{}` prints for a number gives that number |
| Text.ParseU32 | src/main.rs:89 | `parse::<u32>()` accepts an optional `+` then digits, with a value at most 2^32-1, and yields the value of those digits; any digit string in range parses to its value, so one out of range fails |
| Text.ParsePrintedOverflow | src/main.rs:89 | a printed number above 2^32-1 does not parse: the overflow is reported, not wrapped |
| Text.ParsePrinted | src/main.rs:89 | every printed `u32` parses back to itself |
| Text.StrLeTotal | src/main.rs:94 | the order on paths is total |
| Text.StrLeAntisymmetric | src/main.rs:94 | the order on paths is antisymmetric |
| Text.StrLeTransitive | src/main.rs:94 | the order on paths is transitive |
| Playlist.Lines | src/m3u8.rs:10 | `str::lines` yields no line holding a `\n`, and it yields no line at all exactly for the empty text |
| Playlist.LinesOfLfTerminated | src/m3u8.rs:10 | lines each ending in `\n` are read back one for one, when none of them ends in `\r` |
| Playlist.LinesOfCrlfTerminated | src/m3u8.rs:10 | lines each ending in `\r\n` are read back one for one |
| Playlist.Links | src/m3u8.rs:10-15 | the `#` filter over the lines, in order; it never yields more links than lines (its full meaning is stated by `KeptIndices` and `LinksMembership`) |
| Playlist.KeptIndices | src/m3u8.rs:10-15 | the links are exactly the lines at the positions of non-`#` lines, in increasing order |
| Playlist.LinksMembership | src/m3u8.rs:11-14 | a string is a link if and only if it is a playlist line not starting with `#`, so blank lines are kept |
| Playlist.LinksOfCommentFree | src/m3u8.rs:11-14 | a playlist with no `#` line keeps every line |
| Playlist.LinksIdempotent | src/m3u8.rs:10-15 | filtering the links again changes nothing |
| Playlist.LinksLength | src/m3u8.rs:10-15 | every line is kept if and only if no line starts with `#` |
| Playlist.NewM3u8Data | src/m3u8.rs:7-18 | the loop keeps the raw text and pushes the non-`#` lines of `lines()`, in order |
| Playlist.ExamplePlaylist | src/m3u8.rs:7-18 | a playlist with one directive and two segments yields the two segment names, in order |
| Builder.New | src/builder.rs:31-54 | with `config.toml` the parsed settings are returned; without it, empty URLs and the output directory `m3mu` |
| Builder.NormalizeBaseUrl | src/builder.rs:89-93 | the base URL ends in `/`; a `/` is appended exactly when it was missing |
| Builder.NormalizeIdempotent | src/builder.rs:89-93 | normalising twice is normalising once |
| Builder.DefaultSettings | src/builder.rs:35-42 | without a configuration file the base URL becomes `/` and the output directory `m3mu` |
| Segments.FetchUrl | src/main.rs:35-36 | the request URL is the base URL followed by the link, unchanged |
| Segments.JoinPath | src/main.rs:49 | the pushed path starts with the directory and ends with the name; between them is one `/`, left out when the directory is empty or already ends in `/` |
| Segments.WithTsExtension | src/main.rs:50 | the result is a prefix of the name plus `.ts`; the whole name when it has no `.` after its first character, otherwise the name cut at its last `.` |
| Segments.SegmentFileName | src/main.rs:46-50 | the file name fails exactly when the link holds no `.ts`; otherwise it ends in `.ts`, holds no `/` and its stem is a prefix of the link |
| Segments.SegmentPath | src/main.rs:45-50 | the segment path fails exactly when the link holds no `.ts`; otherwise it ends in `.ts` |
| Segments.SegmentPathInDirectory | src/main.rs:48-50 | a stored segment lies directly in the output directory: the directory, one `/` unless it already ends in one, then the segment's file name |
| Segments.DotFreeLinkKeepsName | src/main.rs:46-50 | a link whose text before its first `.ts` has no `.` is stored under that text plus `.ts` |
| Segments.ExampleSegmentFileName | src/main.rs:45-50 | `seg-0-a.ts` in `m3mu` is written to `m3mu/seg-0-a.ts` |
| Segments.ExampleFirstTsFileName | src/main.rs:46-50 | `a.tsx.ts` is cut at its first `.ts` and written to `m3mu/a.ts` |
| Segments.ExampleNestedPlaylistName | src/main.rs:46 | a link with no `.ts`, such as `index.m3u8`, makes `write_to_disk` panic |
| Segments.SegmentKey | src/main.rs:80-89 | a key is at most 2^32-1, and a path with no `-` has none |
| Segments.KeyBetweenFirstHyphens | src/main.rs:80-89 | the key of `a-d-b`, with no `-` in `a` or `d`, is `d` parsed as a `u32`, whatever `b` holds |
| Segments.SingleHyphenHasNoKey | src/main.rs:83-87 | a path with exactly one `-` has no key |
| Segments.WrittenSegmentKey | src/main.rs:45-89 | in a directory with no `-`, the file written for `seg-<digits>-<rest>.ts` has the number `<digits>` spells as its key |
| Segments.HyphenatedDirectoryCorruptsKey | src/main.rs:80-88 | a `-` in the output directory takes over the key: `out-7-x/seg-2-a.ts` has the key 7 |
| Segments.EntryLeTotal | src/main.rs:94 | the tuple order is total |
| Segments.EntryLeAntisymmetric | src/main.rs:94 | the tuple order is antisymmetric |
| Segments.EntryLeTransitive | src/main.rs:94 | the tuple order is transitive |
| Segments.Insert | src/main.rs:94 | inserting into sorted tuples keeps them sorted and adds exactly the new tuple |
| Segments.Sort | src/main.rs:94 | `sort_by(cmp)`: the result is sorted and a permutation of its input |
| Segments.SortedUnique | src/main.rs:94 | two sorted arrangements of the same tuples are equal, so any correct sort gives the same order |
| Segments.Tagged | src/main.rs:77-92 | every path paired with its key, in listing order |
| Segments.Keyed | src/main.rs:77-92 | when every path has a key, the tuples are each path with its own key, in listing order |
| Segments.KeyAll | src/main.rs:77-92 | the `map` and `collect` of `concat`: the tuples in listing order, or the first keyless path (its contract is stated by `KeyAllKeyed`, `KeyAllFailure` and `KeyAllFirstFailure`) |
| Segments.KeyAllKeyed | src/main.rs:77-92 | the keying succeeds exactly when every path has a key, and then yields each path with its key, in listing order |
| Segments.KeyAllFailure | src/main.rs:80-89 | a failed keying names a listed path together with that path's own key error |
| Segments.KeyAllFirstFailure | src/main.rs:77-92 | the reported failure is the first path, in listing order, that has no key |
| Segments.TaggedPermutation | src/main.rs:77-92 | permuting the listing permutes the tuples |
| Segments.SortedPathsDistinct | src/main.rs:94 | sorting the tuples of a listing with no repeats keeps every path, exactly once |
| Segments.SortIgnoresListingOrder | src/main.rs:70-94 | two orders of the same listing sort to the same tuples |
| Segments.Joined | src/main.rs:103-107 | the bytes of the given files one after the other, in the given order |
| Segments.ConcatPath | src/main.rs:96-98 | the output file path is the output directory, one `/` unless it already ends in one, then `concat.ts` |
| Segments.Reassembled | src/main.rs:67-110 | `concat` produces its bytes exactly when every listed path has a key |
| Segments.ReassembledValue | src/main.rs:94-109 | when every listed path has a key, `concat.ts` receives the files' bytes one after the other, in sorted tuple order |
| Segments.ReassemblyIgnoresListingOrder | src/main.rs:70-110 | the result of `concat` does not depend on the order `read_dir` returns |
| Segments.RerunOnReassembledDirectory | src/main.rs:80-98 | a second `concat` on a directory with no `-` that holds only `concat.ts` panics |
| Downloader.Directory.constructor | src/main.rs:70 | a directory holding the given files |
| Downloader.Directory.List | src/main.rs:70-75 | `read_dir` lists every file of the directory exactly once, in some order |
| Downloader.Enumeration | src/main.rs:70-75 | one listing of a set of paths: each path exactly once |
| Downloader.AfterConcat | src/main.rs:67-110 | the directory after a successful `concat`: only `concat.ts`, holding the files in tuple order; empty when a keyed `concat.ts` was already there, since it is then an input and is deleted |
| Downloader.Stored | src/main.rs:45-58 | `write_to_disk`: the body at the segment path, replacing any file there; unchanged when the link has no `.ts` |
| Downloader.Fetched | src/main.rs:34-43 | the `get_url` task: `write_to_disk` of the server's answer; unchanged when there is none |
| Downloader.Retrieved | src/main.rs:130-138 | every task applied in link order |
| Downloader.RetrievedStep | src/main.rs:130-138 | retrieving one more link applies its task after the others |
| Downloader.RetrievedKeys | src/main.rs:130-138 | retrieval removes no file, and every new file is the written path of some link |
| Downloader.RetrievedElsewhere | src/main.rs:130-138 | a path no link is stored under is present afterwards exactly when it was before, with the same bytes |
| Downloader.RetrievedLastWrite | src/main.rs:34-58 | an answered link with a `.ts` leaves the server's body at its path, unless a later link is stored there |
| Downloader.FetchedElsewhere | src/main.rs:45-58 | one task leaves every path other than its own as it was |
| Downloader.FetchedHere | src/main.rs:34-58 | one answered task leaves the body it received at its path |
| Downloader.M3U8.Build | src/builder.rs:83-104 | the index URL and output directory pass through, the base URL gets its `/`, and no playlist is held |
| Downloader.M3U8.GetIndex | src/main.rs:22-32 | the links are the playlist's non-`#` lines, and the parsed playlist is kept in `data` |
| Downloader.M3U8.WriteToDisk | src/main.rs:45-58 | the body replaces any file at the segment path; with no `.ts` in the link it panics and the directory is unchanged |
| Downloader.M3U8.GetUrl | src/main.rs:34-43 | it requests base URL plus link; a failed request panics with that URL and writes nothing; otherwise `write_to_disk` runs |
| Downloader.M3U8.FetchAll | src/main.rs:130-138 | the directory ends as every task leaves it, taken in link order; a panicking task changes nothing and stops no other |
| Downloader.M3U8.Concat | src/main.rs:67-110 | it succeeds exactly when every file has a key, `concat.ts` included; then the directory is `AfterConcat`; a keyless file panics with that file and leaves the directory unchanged |
| Downloader.Download | src/main.rs:113-142 | for every output directory: a failed index request panics and changes nothing; otherwise the segments are retrieved and `concat` either reassembles them or panics on a keyless file |
| Downloader.KeyListing | src/main.rs:77-92 | the `map`/`collect` loop gives the keyed tuples, or panics at the first path with no key |
| Downloader.CreateAndCopy | src/main.rs:100-109 | `concat.ts` is created empty and each file is appended in order and removed; when `concat.ts` is itself an input it is removed too, and nothing else changes |
| Downloader.CopyStep | src/main.rs:103-109 | one copy turn appends exactly one file not yet copied |
| Downloader.ConcatPlan | src/main.rs:70-109 | for a complete listing in which every path has a key, each file is copied once, `concat.ts` is an input exactly when it was there, and the result is `AfterConcat` |
| Downloader.ConcatReadsItself | src/main.rs:70-104 | a `concat.ts` already in a directory whose files all have keys is itself one of the sorted inputs |
| Downloader.StaleConcatEmpties | src/main.rs:100-108 | with a keyed `concat.ts` already there, a successful `concat` leaves the directory empty |
| Downloader.HyphenatedConcatKey | src/main.rs:80-98 | in `out-7-x`, `concat.ts` itself has the key 7 |
| Downloader.HyphenatedRerunEmptiesDirectory | src/main.rs:67-110 | rerunning in `out-7-x` with `concat.ts` and one segment present: every file has a key and `concat` leaves nothing |
| Downloader.ConcatLeavesOneFile | src/main.rs:100-109 | once every sorted path has been moved, the directory holds only `concat.ts`, exactly as `AfterConcat` describes |
| Downloader.SameListing | src/main.rs:70-94 | any complete listing of the directory sorts like the canonical one |
| Downloader.FilesKeyed | src/main.rs:77-92 | when every listed path has a key, every file of the directory has one |
| Tracker.MinSecs | src/tracker.rs:54-55 | `min * 60 + secs` is the total and `secs < 60` |
| Tracker.MinSecText | src/tracker.rs:57 | the `{}min{}s` text (its meaning is stated by `MinSecRoundTrip`) |
| Tracker.MinSecRoundTrip | src/tracker.rs:54-57 | the text `{}min{}s` reads back as `60 * min + secs` seconds |
| Tracker.ElapsedText | src/tracker.rs:70-79 | `elapsed_to_human_readable` on whole seconds (its meaning is stated by `ElapsedRoundTrip`) |
| Tracker.ElapsedRoundTrip | src/tracker.rs:70-79 | the elapsed text reads back as the elapsed seconds, and it has a minutes part exactly from 60 seconds on |
| Tracker.EtaSeconds | src/tracker.rs:50-55 | the predicted whole seconds of `estimated`, or its panic (stated by `EtaPanics` and `EtaBounds`) |
| Tracker.EtaPanics | src/tracker.rs:50-52 | `estimated` panics, in order, exactly when less than a second has passed, more was read than the content length, or the rate is zero |
| Tracker.EtaBounds | src/tracker.rs:50-52 | a successful estimate is the bytes left divided by the rate, rounded down |
| Tracker.Estimated | src/tracker.rs:49-58 | `estimated`: the predicted time as text, or its panic (stated by `EstimatedRoundTrip`) |
| Tracker.EstimatedRoundTrip | src/tracker.rs:49-58 | the estimate fails exactly when the arithmetic does, with the same panic; otherwise it reads back as the predicted seconds |
| Tracker.BarText | src/tracker.rs:86-93 | the fifteen cells of the bar (stated by `BarCells` and `FullCellCount`) |
| Tracker.BarCells | src/tracker.rs:81-93 | the bar has 15 cells, and cell `k` is full exactly when `k` is below the fill |
| Tracker.FullCellCount | src/tracker.rs:82-93 | the bar holds `min(fill, 15)` full cells and the rest empty |
| Tracker.ProgressBar | src/tracker.rs:86-93 | the cell loop builds that bar |
| Tracker.CurrentIndex | src/tracker.rs:84 | the number of full cells, in exact arithmetic (stated by `CurrentIndexBounds` and `CompleteFillsBar`) |
| Tracker.CurrentIndexBounds | src/tracker.rs:84 | the fill is the share of the content read, in fifteenths, rounded down |
| Tracker.CompleteFillsBar | src/tracker.rs:84-93 | reading the whole content fills all 15 cells |
| Tracker.Shown | src/tracker.rs:104-111 | the line `display` prints at a given time: bar, elapsed time and estimate, or the panic of `estimated` |
| Tracker.ProgressTracker.constructor | src/tracker.rs:20-29 | nothing read yet, and both clocks start now |
| Tracker.ProgressTracker.Display | src/tracker.rs:104-114 | the line shows the bar, the elapsed time and the estimate, or the panic of `estimated`; no field changes |
| Tracker.ProgressTracker.Flush | src/tracker.rs:116-120 | shows the same line as `display`; no field changes |
| Tracker.ProgressTracker.Update | src/tracker.rs:31-47 | both counters grow by `read`, so `total_read` never decreases; after more than a second the line is shown and the window restarts; a display can never panic for lack of elapsed time |

## Left out

- HTTP:
  - requests are lookups in a map from URL to body, and the index request's answer is an `Option` parameter;
  - the `reqwest` client and its default headers are not modelled, nor are `create_header_map` and `load_headers` (`src/builder.rs:56-81`), which only configure that client.
- The parsing of `config.toml` and `headers.json` is not modelled: `Builder.New` takes the parsed configuration as a parameter.
- `create_output_dir` (`src/main.rs:60-65`): the output directory is modelled as a map of files that always exists.
- Concurrency: the `JoinSet` tasks are taken one after the other in link order. Two links that write the same path end with the later link's body, where the real run keeps whichever task finished last.
- Console output is not modelled: the `println!`/`dbg!` traces, the colours, and `print!` together with its `stdout().flush()`.
- Downloader.Directory.List: the order `read_dir` picks is left open. Subdirectories and I/O errors in the listing are not modelled.
- Downloader.M3U8.Concat: when `concat.ts` is one of its own inputs, only the directory it leaves is stated: empty, as on a system where a removed file stays writable through an open handle. The bytes copied into the unnamed file are not stated. `BufWriter` buffering is not modelled either, so the model reads back everything written so far, where the real program reads what has been flushed and keeps reading what it appends itself.
- Segments.PlainLink: links are assumed to stay one plain path component before their first `.ts`, meaning no `/`, and not empty, `.` or `..`. `PathBuf::push` of an absolute or nested link is not modelled.
- Segments.EntryLe: paths are compared as strings, which matches Rust's component-wise `Path` order only because every file sits directly in the one directory.
- Floating point: the percentage, the kb/s rate and its `{:>5.1}` formatting (`kbs_to_human_readable`, `src/tracker.rs:60-68`) are not modelled, nor is the percentage and cell count printed by `progress_bar`.
- Tracker.CurrentIndex: computed exactly as `total_read * 15 / content_length`. The `f32` arithmetic of `src/tracker.rs:33` and `:84` can round differently at cell boundaries.
- `Instant`: the clock is a natural number of nanoseconds passed in by the caller. The `> 1.0` seconds comparison of `src/tracker.rs:39` is taken exactly.
- Tracker.ProgressTracker.Update: does not model `usize` overflow of the counters at `src/tracker.rs:32` and `:35`, because the counters are unbounded naturals.
- Tracker.EtaSeconds: `content_length - total_read` going below zero is modelled as the panic of a debug build. A release build would wrap instead.
- `src/tracker.rs` and `src/args.rs` are not declared as modules in `src/main.rs`, so they are not part of the running program. `src/args.rs` is not part of this model.
