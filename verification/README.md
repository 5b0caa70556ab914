# RoAnalyzer core in Dafny

RoAnalyzer inspects an Android emulator. This project models the parts of it that are pure logic once the processes, the ffmpeg library and the user interface are set aside.

**File browser over `adb`.**
- `adb.dfy`: how `AdbHelper` builds the `adb` command line. It also covers how `exec_pty` collects the shell's output up to its sentinel line, and the parsers for the output of `stat`, `find` and `ps`. These turn it into file records, timestamps, per-user app lists and path listings.
- `file_types.dfy`: the node types (`FileType::from(&char)`, `FileType::default`) and the `FileInfo` record.
- `fs_tree.dfy`: the in-memory path trie (`FSNode`): `Path::iter` components, `add_child` and `get_child_mut`.
- `fs_listing.dfy`: `list_children`, and the breadth-first `list_folders_tree` as a method with loop invariants.
- `filesystem.dfy`: `FileSystem::new` and `refresh`.
- `fs_json.dfy`: the three JSON views of the trie (`list_directory_as_json`, `subtree_json`/`to_tree_json`, `subtree_as_json`). JSON is a small datatype. Arrays built from hash-map iteration are multisets.

**Icon picker.**
- `icons.dfy`: `get_file_icon`. It maps a file name's lower-cased extension to an icon. Lower-casing is ASCII only.

**Capture buffer** (`StreamPuffer`).
- `media.dfy`: timestamps and s16le samples.
- `capture_buffer.dfy`: the two bounded FIFO buffers (`push_video`, `push_audio`). It also holds the selection in `save_last_to_mp4`: the overlap window of video and audio, and its filter.
- `encoder.dfy`: `encode_to_mp4`. ffmpeg is reduced to the trace of the fallible calls it receives (`Op`). Which call fails, if any, is a parameter (`failAt`). The model keeps the frame-size check, the timestamp rebase, the s16le decoding and the audio sample accumulator. The accumulator cuts fixed-size frames, reads two planes with stride 2 and stamps each frame `k * frame_size * 1000 / sample_rate`. The model also keeps the phase order of the calls.

**Shared helpers.**
- `options.dfy`: `Option` and `Result`.
- `text.dfy`: the Rust `str` operations the parsers use (`find`, `rfind`, `splitn`, `split`, `trim`, `lines`, `read_line`, integer `parse`).
- `seqs.dfy`: `Iterator::filter().collect()` and small sequence facts.
- `arith.dfy`: multiplication and division facts.

Hash-map iteration order is unspecified in the program. The listing methods pick keys with `:|`, and no contract orders siblings.

## Model

| member | source | states |
|---|---|---|
| FileTypes.FromChar | src/fs/helpers.rs:14-23 | `-`, `d` and `l` give File, Directory and Symlink; every other character gives Other |
| FileTypes.FromTypeChar | src/fs/helpers.rs:16-19 | each of File, Directory and Symlink is read back from its own type character |
| FileTypes.DefaultType | src/fs/helpers.rs:8-12 | the default type is the one `d` denotes, Directory |
| FileTypes.DefaultInfo | src/fs/helpers.rs:25-35 | the default metadata has zero numbers and empty strings |
| FileTypes.TypeOfPermissions | src/fs/filesystem.rs:136-139 | a refreshed entry's type comes from its first permission character; an empty permission string gives `?`, so Other |
| Icons.Extension | src/gui/test.rs:9-10 | there is no extension iff the name has no `.`; otherwise the extension is the suffix after the last `.` and holds no `.` |
| Icons.FileIcon | src/gui/test.rs:5-39 | a name without `.` gets the default icon; otherwise the icon is that of the lower-cased extension |
| Icons.LowerCommutesWithExtension | src/gui/test.rs:6-10 | lower-casing first and then taking the extension is the same as the reverse order |
| Icons.IconIgnoresCase | src/gui/test.rs:6-10 | a name and its lower-cased form get the same icon |
| Icons.IconDependsOnlyOnExtension | src/gui/test.rs:9-35 | two names with equal lower-cased extensions get the same icon |
| Icons.UnknownExtension | src/gui/test.rs:11-34 | every known extension has one to four characters, so an empty or longer one gets the default icon |
| Icons.TrailingDotIsDefault | src/gui/test.rs:9-34 | a name ending in `.` has an empty extension and gets the default icon |
| Icons.ExampleUpperCase | src/gui/test.rs:6-13 | `IMG_0001.JPG` gets the picture icon |
| Icons.ExampleLastDot | src/gui/test.rs:9-13 | in `scan.pdf.jpg` only the text after the last `.` counts, so it gets the picture icon |
| Adb.NewHelper | src/fs/adb.rs:57-63 | a new helper runs `adb` from the search path, keeps the serial and does not use `su` |
| Adb.WithRoot | src/fs/adb.rs:66-69 | `with_root` sets root and keeps the serial and the program |
| Adb.WithAdbPath | src/fs/adb.rs:72-75 | `with_adb_path` replaces the program and keeps the rest |
| Adb.ShellInvocation | src/fs/adb.rs:123-134 | argv is `-s serial` iff a serial is set, then `shell`, then the command, prefixed by `su root ` iff root is set |
| Adb.PtyScript | src/fs/adb.rs:90-93 | `exec_pty` writes `su root`, the command, then `echo` of the sentinel |
| Adb.PtyInvocation | src/fs/adb.rs:79-84 | `exec_pty` spawns `adb shell` without the serial |
| Adb.CollectUntilSentinel | src/fs/adb.rs:96-106 | each line read loses its last character; the output is those lines up to the first that starts with the sentinel, which is not included |
| Text.ReadLinesConcat | src/fs/adb.rs:99 | the pieces `read_line` returns concatenate back to the stream |
| Adb.PtyOutputRoundTrip | src/fs/adb.rs:96-108 | printed lines followed by the sentinel line come back exactly, whatever follows the sentinel |
| Adb.BeforeArrow | src/fs/adb.rs:204-207 | the result is the longest prefix without `->`; it is followed by `->` when it is shorter than the input |
| Text.SplitN | src/fs/adb.rs:199 | `splitn(n)` gives 1 to n fields; only the last may hold the separator, and only when there are n fields |
| Text.JoinSplitN | src/fs/adb.rs:199 | joining the `splitn` fields with the separator gives the line back |
| Text.SplitNLength | src/fs/adb.rs:199-202 | `splitn(n)` gives min(separators + 1, n) fields |
| Adb.NumberOrZero | src/fs/adb.rs:211-220 | a numeric field that does not parse as a 64-bit unsigned number reads as 0 |
| Adb.ParseStatLine | src/fs/adb.rs:198-222 | a `stat` line yields a record iff it has at least 8 `\|`; the numbers stay below 2^64 |
| Adb.StatLineRoundTrip | src/fs/adb.rs:199-220 | the nine-field `stat` line of a record parses back to that path and record, fields in order inode, permissions, change, modification, access, user, group, size, name |
| Adb.QuotedPath | src/fs/adb.rs:203-209 | the quoted name without `->` reads back as the bare path |
| Adb.SymlinkPathKeepsQuote | src/fs/adb.rs:203-209 | for a link `'p' -> 't'` the path keeps the closing quote and the space: `p' ` |
| Adb.LoadAllAppend | src/fs/adb.rs:198-223 | `load_all` handles lines one by one and keeps their order |
| Text.ParseUnsignedDecimal | src/fs/adb.rs:212 | the decimal text of a number in range parses back to the number |
| Adb.I32AsUsize | src/fs/adb.rs:248 | `as usize` keeps non-negative values and adds 2^64 to negative ones |
| Adb.ListAllTimestamp | src/fs/adb.rs:242-248 | the timestamp is always below 2^64 |
| Text.ParseI32Decimal | src/fs/adb.rs:246-247 | the decimal text of an `i32` value parses back to it |
| Text.ParseI32Overflow | src/fs/adb.rs:246-247 | a decimal of 2^31 or more does not parse as `i32` |
| Adb.ParseListAllLine | src/fs/adb.rs:237-248 | a line yields an entry iff it holds `\|`; the path is everything after the first `\|` |
| Adb.ListAllLineRoundTrip | src/fs/adb.rs:236-248 | the line `seconds.fraction\|path` for seconds below 2^31 gives back the path and the seconds |
| Adb.ListAllTimestampOverflow | src/fs/adb.rs:242-248 | from 2^31 seconds on, the timestamp of such a line reads as 0 |
| Adb.ParseUserLine | src/fs/adb.rs:257-261 | a line yields a pair iff it holds a space; the user is the text before the first space, the app the trimmed rest |
| Adb.GroupApps | src/fs/adb.rs:255-270 | no user key holds a space |
| Adb.GroupAppsAreJoinedApps | src/fs/adb.rs:256-269 | a user is a key iff some line names them, and the value is their apps in line order, joined with commas |
| Adb.ListFilesCommand | src/fs/adb.rs:282 | `list_files` runs `ls` on the path in single quotes, and the path can be read back from the command |
| Adb.ListFoldersCommand | src/fs/adb.rs:296 | `list_folders_tree` runs `find -type d -print` on the path in single quotes, and the path can be read back from the command |
| Adb.KeepTrimmed | src/fs/adb.rs:284-303 | at most one entry per line, and every entry is trimmed |
| Adb.KeepTrimmedMembers | src/fs/adb.rs:284-303 | a name is listed iff some accepted line trims to it |
| Adb.KeepTrimmedAll | src/fs/adb.rs:284-288 | when every line is accepted, the i-th entry is the i-th line trimmed |
| Adb.KeepTrimmedAppend | src/fs/adb.rs:284-288 | filtering keeps the order of lines |
| Adb.BlankLineListedEmpty | src/fs/adb.rs:286-287 | a line of blanks passes the emptiness test and is listed as the empty name |
| Adb.FindMessageDropped | src/fs/adb.rs:300-302 | a line starting with `find:` is dropped; an indented one is kept |
| FsTree.Components | src/fs/filesystem.rs:42 | components are non-empty; after the first they hold no `/` and are not `.`; a leading `/` is the root component `/` |
| FsTree.ComponentsOfJoin | src/fs/filesystem.rs:42 | normal segments joined with `/` iterate back as those segments |
| FsTree.ComponentsOfRootedJoin | src/fs/filesystem.rs:42 | the same with a leading `/`, which comes first as `/` |
| FsTree.NewNode | src/fs/filesystem.rs:31-37 | a new node is a childless directory with the given metadata |
| FsTree.LookupPrefix | src/fs/filesystem.rs:55-66 | a prefix of a route is found iff it is no longer than the number of leading components present |
| FsTree.GetChild | src/fs/filesystem.rs:55-66 | the empty path gives the node itself; the result is None iff some component is missing along the walk |
| FsTree.GetChildMissing | src/fs/filesystem.rs:58-63 | a failed lookup stops at a present node that lacks the next component |
| FsTree.AddAlong | src/fs/filesystem.rs:39-54 | the count is the number of components that were absent; the end of the route then has the given type and metadata |
| FsTree.AddChild | src/fs/filesystem.rs:39-54 | after `add_child` the path is found with the given type and metadata; the count is 0 iff the path existed before |
| FsTree.AddAlongFrame | src/fs/filesystem.rs:42-53 | a route that is not a prefix of the added path finds the same node as before |
| FsTree.AddAlongAncestors | src/fs/filesystem.rs:42-50 | every proper prefix is present afterwards: an old node keeps its type and metadata, a new one is a directory with default metadata |
| FsTree.AddAlongNodes | src/fs/filesystem.rs:42-50 | afterwards a route is found iff it was before or it is a prefix of the path |
| FsTree.FileName | src/fs/filesystem.rs:208-210 | the file name is the last component unless that is `/`, `.` or `..` |
| FsTree.JoinPath | src/fs/filesystem.rs:102 | joining an absolute name gives the name; otherwise the result starts with the base |
| FsListing.MapKeys | src/fs/filesystem.rs:76 | hash-map iteration visits every key exactly once |
| FsListing.ListChildren | src/fs/filesystem.rs:68-84 | empty for a missing path; otherwise exactly one entry per child, with the child's name, type and metadata |
| FsListing.DirNames | src/fs/filesystem.rs:106-109 | the directory children among the names, without repeats |
| FsListing.ExpandNode | src/fs/filesystem.rs:100-110 | one row per child with joined path, type and child count; every directory child is queued with its joined path |
| FsListing.ListFoldersTree | src/fs/filesystem.rs:86-113 | empty for a missing path; otherwise one row per child of the start node and of every directory reached through directories only, each once and no other, with path, type and child count; rows never get shallower |
| FsListing.WalkStep | src/fs/filesystem.rs:96-111 | one pop of the queue keeps the walk invariant and shrinks the set of routes left to pop |
| FileSystems.NewFileSystem | src/fs/filesystem.rs:122-131 | a new file system has an empty root directory, a count of 0 and a root helper for the serial |
| FileSystems.Refresh | src/fs/filesystem.rs:133-142 | a failed listing leaves an empty root, keeps the count and reports failure; a successful one adds to the count the number of non-empty routes of the listed paths |
| FileSystems.InsertAllNodes | src/fs/filesystem.rs:135-140 | after the entries are added a route is present iff it was before or it is a prefix of an entry's path |
| FileSystems.InsertAllOthers | src/fs/filesystem.rs:135-140 | a route no entry names keeps its type and metadata, or is a plain directory when it is new |
| FileSystems.InsertAllLastWins | src/fs/filesystem.rs:135-140 | the last entry naming a path decides the type and metadata of its node |
| FileSystems.RefreshNodes | src/fs/filesystem.rs:133-141 | after a refresh the tree holds exactly the root and every prefix of a listed path; nothing from before survives |
| FileSystems.RefreshLastWins | src/fs/filesystem.rs:133-141 | after a refresh a listed path carries its last listing entry |
| FileSystems.RefreshImplicitDirectories | src/fs/filesystem.rs:133-141 | a node created only on the way to listed paths is a directory with default metadata |
| FileSystems.AddChildCreates | src/fs/filesystem.rs:39-54 | `add_child` returns the number of non-empty prefixes of the path that were missing, counted as a set of routes |
| FileSystems.InsertAllCount | src/fs/filesystem.rs:135-140 | the summed `add_child` counts are the number of distinct routes of the entries the trie lacked: a node created by one entry is not counted again by a later one |
| FileSystems.PrefixesCovered | src/fs/filesystem.rs:135-140 | the routes counted are exactly the non-empty routes leading to or through some entry's path |
| FileSystems.RefreshCount | src/fs/filesystem.rs:133-141 | what a successful refresh adds to the count is exactly the set of nodes below the new root |
| FileSystems.RefreshTwice | src/fs/filesystem.rs:134-139 | refreshing twice from the same listing gives the same tree but counts its nodes twice |
| FsJson.DirectoryJson | src/fs/filesystem.rs:145-160 | null iff the node is not a directory or has no children; otherwise an object whose only key is `rows`, holding one key per child |
| FsJson.ListDirectoryAsJson | src/fs/filesystem.rs:162-166 | null for a missing path, otherwise the JSON of the node there |
| FsJson.DirectoryJsonMirrorsTree | src/fs/filesystem.rs:145-166 | a route is present in the nested `rows` iff it leads through directories in the tree, and there it holds the JSON of that node |
| FsJson.RowNode | src/fs/filesystem.rs:178-196 | a row has `name` and `rows`, plus `path` when paths are shown |
| FsJson.RowOfSubdirectory | src/fs/filesystem.rs:184-193 | every directory child of a directory is a row |
| FsJson.SubdirectoryOfRow | src/fs/filesystem.rs:184-193 | every row is that of a directory child |
| FsJson.DisplayName | src/fs/filesystem.rs:205-211 | the empty path, and a path without a file name, show as `[ROOT]`; otherwise the file name is shown |
| FsJson.SubtreeJson | src/fs/filesystem.rs:198-213 | null for a missing path; otherwise a name/rows object named after the path |
| FsJson.ToTreeJson | src/fs/filesystem.rs:170-172 | the whole tree is the root's row named `[ROOT]` |
| FsJson.ChildPath | src/fs/filesystem.rs:227-231 | a child of `/` is `/name`, any other child is `parent/name` |
| FsJson.TopPath | src/fs/filesystem.rs:260-265 | children of the empty path and of `/` get `/name`, others `path/name` |
| FsJson.SubtreeAsJson | src/fs/filesystem.rs:246-272 | empty for a missing path; otherwise exactly one row per directory child, with its joined path |
| FsJson.RowNodeRoutes | src/fs/filesystem.rs:178-196 | a route is in the row tree iff it leads through directories only |
| FsJson.RowNodePaths | src/fs/filesystem.rs:219-244 | the row at a route carries the path that spells out the route below the top path |
| FsJson.FoldersAreQueued | src/fs/filesystem.rs:223-236 | the routes in a directory's row tree are exactly those the directories-only walk of `list_folders_tree` queues |
| FsJson.SubtreeJsonFolders | src/fs/filesystem.rs:175-214 | `subtree_json` holds exactly the folders of the node at the path |
| FsJson.SubtreeAsJsonFolders | src/fs/filesystem.rs:216-273 | `subtree_as_json` holds the same folders as `subtree_json`, minus the root row |
| FsJson.SubtreeAsJsonPaths | src/fs/filesystem.rs:216-273 | every row of `subtree_as_json` carries the path of its folder |
| Media.ToMs | src/video/stream_puffer.rs:72 | the stamp is below 2^32, equals whole milliseconds modulo 2^32, and rounds down |
| Media.FromLe | src/video/stream_puffer.rs:420 | a byte pair is read as the `i16` two's complement of `lo + 256 hi` |
| Media.FromToLe | src/video/stream_puffer.rs:420 | the bytes of a sample read back as the sample |
| Media.ToFromLe | src/video/stream_puffer.rs:420 | every byte pair is the encoding of the sample it reads as |
| Media.DecodeS16le | src/video/stream_puffer.rs:417-421 | one `i16` sample per whole byte pair |
| Media.DecodeAt | src/video/stream_puffer.rs:417-421 | sample i is read from bytes 2i and 2i+1 |
| Media.DecodeEncode | src/video/stream_puffer.rs:417-421 | decoding the encoding of samples gives them back |
| Media.EncodeDecode | src/video/stream_puffer.rs:417-421 | an even number of bytes is the encoding of what it decodes to |
| Media.DecodeIgnoresOddByte | src/video/stream_puffer.rs:419 | an odd trailing byte adds no sample |
| Mp4Encoder.Rebase | src/video/stream_puffer.rs:360 | the pts is below 2^32; it is the distance from the first frame for a later frame, and wraps for an earlier one |
| Mp4Encoder.SendAll | src/video/stream_puffer.rs:326-379 | two video-phase calls per kept frame |
| Mp4Encoder.SendAllAt | src/video/stream_puffer.rs:353-365 | kept frame i is scaled, then sent with its rebased timestamp |
| Mp4Encoder.VideoOps | src/video/stream_puffer.rs:326-379 | the video loop sends exactly the frames of the expected size, in order, with pts relative to the first buffered frame |
| Mp4Encoder.SkippedFirstFrameStillRebases | src/video/stream_puffer.rs:324-360 | a skipped first frame still sets the pts origin |
| Mp4Encoder.Left | src/video/stream_puffer.rs:452-457 | the left plane holds the even-indexed samples |
| Mp4Encoder.Right | src/video/stream_puffer.rs:459-464 | the right plane holds the odd-indexed samples |
| Mp4Encoder.StrideCoversPairs | src/video/stream_puffer.rs:443-467 | with two or more channels a frame's stride covers both planes |
| Mp4Encoder.Drain | src/video/stream_puffer.rs:443-474 | without a panic the leftover is shorter than one stride; two or more channels and a nonzero rate never panic; only audio frames are sent; a loop that drops no samples panics at once, sending nothing, whenever it ends at all |
| Mp4Encoder.Feed | src/video/stream_puffer.rs:415-467 | after a panic nothing more happens |
| Mp4Encoder.AudioRun | src/video/stream_puffer.rs:415-493 | the audio loop sends only audio frames; when a round drops no samples it sends nothing and panics exactly when some chunk holds samples |
| Mp4Encoder.DrainAppend | src/video/stream_puffer.rs:436-467 | cutting a buffer in two chunks is cutting the first, then the leftover followed by the second |
| Mp4Encoder.AudioRunCutsStream | src/video/stream_puffer.rs:415-493 | chunk boundaries do not matter: the loop over chunks cuts the concatenated samples as one stream |
| Mp4Encoder.DrainLength | src/video/stream_puffer.rs:443-467 | n frames take n strides; the leftover is the rest, shorter than a stride, and is never sent |
| Mp4Encoder.DrainCount | src/video/stream_puffer.rs:443-467 | the number of frames is the sample count divided by the stride |
| Mp4Encoder.DrainAt | src/video/stream_puffer.rs:443-473 | frame i is cut from the samples starting at i times the stride and stamped as frame k+i |
| Mp4Encoder.DrainPanics | src/video/stream_puffer.rs:443-471 | with fewer than two channels or a zero rate, the loop panics iff a stride is buffered, a stride of zero included |
| Mp4Encoder.AudioRunPanics | src/video/stream_puffer.rs:415-493 | with fewer than two channels or a zero rate, the run panics iff there are samples and they reach one stride; otherwise it sends nothing and buffers everything |
| Mp4Encoder.AudioPtsMonotone | src/video/stream_puffer.rs:471-473 | audio timestamps never decrease |
| Mp4Encoder.SetupOps | src/video/stream_puffer.rs:230-306 | all setup calls are in the setup phase; an audio stream is added iff audio is on |
| Mp4Encoder.Encode | src/video/stream_puffer.rs:213-517 | a failure stops after the calls before the failing one; success ends with the trailer |
| Mp4Encoder.VideoPartInOrder | src/video/stream_puffer.rs:309-395 | the video half never goes back a phase and ends with the video flush |
| Mp4Encoder.AudioPartInOrder | src/video/stream_puffer.rs:398-514 | the audio half keeps phase order; the trailer, if written, is its last call, and is written unless the loop panicked |
| Mp4Encoder.PlanInPhaseOrder | src/video/stream_puffer.rs:309-514 | setup, header, scaler, video frames, video flush, audio frames, audio flush and trailer come in this order |
| Mp4Encoder.PlanTrailer | src/video/stream_puffer.rs:496-514 | the trailer is written only as the last call, and always unless the audio loop panicked |
| Mp4Encoder.VideoPartHeader | src/video/stream_puffer.rs:230-310 | the header follows the setup exactly once; an audio stream is added iff audio is on |
| Mp4Encoder.PlanHeader | src/video/stream_puffer.rs:274-310 | the header is written exactly once, right after setup; an audio stream exists iff there is audio to save and a chunk is buffered |
| Mp4Encoder.VideoPartFrames | src/video/stream_puffer.rs:313-384 | after the scaler the kept frames are sent in order with rebased pts, then the video flush |
| Mp4Encoder.PlanVideoFrames | src/video/stream_puffer.rs:324-384 | in the whole run, kept frame i is at its place after the scaler with its rebased pts, and the video flush follows the last frame |
| Mp4Encoder.PlanAudioFrames | src/video/stream_puffer.rs:398-514 | without audio the video half is followed by the trailer; with audio, two or more channels, a rate and a frame size, the samples are cut as one stream, then come the audio flush and the trailer |
| Mp4Encoder.PlanAudioStalls | src/video/stream_puffer.rs:443-471 | with `frame_size * channels == 0` no audio frame is sent: the plan panics iff some sample is buffered, and otherwise flushes and writes the trailer |
| Mp4Encoder.EncodeTrailer | src/video/stream_puffer.rs:309-516 | the trailer is among the calls iff the encoding succeeded |
| CaptureBuffer.NewPuffer | src/video/stream_puffer.rs:42-65 | both buffers start empty with the given bounds |
| CaptureBuffer.Retained | src/video/stream_puffer.rs:77-80 | a buffer keeps at least one element and at least its bound |
| CaptureBuffer.BoundedPush | src/video/stream_puffer.rs:76-80 | the new element is last; a buffer within its retained size stays within it |
| CaptureBuffer.BoundedPushKeepsNewest | src/video/stream_puffer.rs:77-80 | the oldest element is dropped iff the buffer is non-empty and at or over its bound; the rest stay in order |
| CaptureBuffer.BoundedPushLatest | src/video/stream_puffer.rs:76-80 | a buffer holding the latest pushes of a history still does after one more push |
| CaptureBuffer.PushAllLatest | src/video/stream_puffer.rs:76-80 | the same after any number of pushes |
| CaptureBuffer.PushAllFromEmpty | src/video/stream_puffer.rs:76-80 | from empty, the buffer holds the last max(bound, 1) pushes in push order |
| CaptureBuffer.PushVideo | src/video/stream_puffer.rs:70-81 | the frame is appended with its millisecond stamp; the audio buffer is unchanged; the bound holds |
| CaptureBuffer.PushAudio | src/video/stream_puffer.rs:86-97 | the chunk is appended with its millisecond stamp; the video buffer is unchanged; the bound holds |
| CaptureBuffer.PushVideoLatest | src/video/stream_puffer.rs:70-81 | the video buffer is always the latest frames pushed |
| CaptureBuffer.PushAudioLatest | src/video/stream_puffer.rs:86-97 | the audio buffer is always the latest chunks pushed |
| CaptureBuffer.Window | src/video/stream_puffer.rs:160-168 | an element is kept iff it is stamped within the closed window |
| CaptureBuffer.Select | src/video/stream_puffer.rs:114-182 | no video gives its error; without audio or overlap the video goes unfiltered with no audio; the second error only occurs on an overlap; a success has video |
| CaptureBuffer.SelectOverlap | src/video/stream_puffer.rs:144-182 | on an overlap both buffers are filtered to `[max(starts), min(ends)]`, and the error occurs iff no video frame is left |
| CaptureBuffer.WindowIsSlice | src/video/stream_puffer.rs:160-168 | on a buffer in time order the window is a contiguous slice; everything before it is earlier and everything after it is later |
| CaptureBuffer.SaveLastToMp4 | src/video/stream_puffer.rs:102-209 | no video gives that error without any call; a selection error makes no call; success ends with the trailer; an encoder error stops at the failing call |
| CaptureBuffer.SaveTrailer | src/video/stream_puffer.rs:192-208 | the trailer is written iff the save succeeds |
| CaptureBuffer.SaveVideoOnly | src/video/stream_puffer.rs:122-157 | without an overlap the file is video-only: no audio stream, all buffered frames considered |
| CaptureBuffer.SaveMonoPanics | src/video/stream_puffer.rs:443-467 | with one channel the stride-2 right plane reads past the buffer: the save fails with a join error iff at least one sample, and one frame's worth of samples, is selected |

## Left out

- The process calls are left out: spawning `adb`, pipes, `output()`, exit status and `stderr` in the error message. `exec_pull`, `read_file` and `read_text_file` go too, as does the `whoami` call in `FileSystem::new`. The parsers take the text the process printed.
- ffmpeg is a foreign library. Codec lookup, the RGB to YUV conversion, the row copy respecting the stride, packet receive/rescale/write loops and time bases are calls in the trace at most. The packet writes inside the receive loops are not in the trace.
- The encoder time base is `1/fps` but packets are rescaled from `1/1000`. This mismatch is ffmpeg-side and not modelled.
- The `f32` normalisation `sample / 32768.0` is left out because it is floating point. The accumulator keeps the integer samples, since the normalisation is a per-sample map.
- Concurrency is left out: `RwLock`, `Arc`, the async pushes and `spawn_blocking`. A snapshot is the current sequence. A panic in the blocking task becomes the join error.
- The `println!` and `eprintln!` diagnostics are left out. The `u32` subtractions `video_end - video_start` and `audio_end - audio_start` inside them panic in a debug build when a buffer is out of time order; the model follows the release build and ignores them.
- The output path is not modelled. A non-UTF-8 path makes `encode_to_mp4` fail after `ffmpeg::init()` and before the output is created, and this case is left out.
- Mp4Encoder.Encodable: the model requires `width * height * 3 < 2^32`. The program computes it in `u32`, which wraps in a release build.
- Mp4Encoder.Encodable: when an audio stream exists and `frame_size * channels == 0`, the cutting loop drops nothing. On the first chunk holding samples it then panics or never ends. It panics when the samples are fewer than `2 * frame_size`, so a plane read goes out of range, or when the sample rate is 0. These panics are modelled. The model requires that the loop does not run forever: that is the remaining case, where the first chunk holding samples holds at least `2 * frame_size` of them and the rate is not 0.
- Mp4Encoder.Encode: the audio encoder's `frame_size` is a parameter, since ffmpeg decides it. Which call fails is the `failAt` parameter.
- Mp4Encoder.Rebase: it models the release build, where `timestamp - first` wraps on `u32`. A debug build panics when a frame is stamped before the first buffered one.
- CaptureBuffer.Latest: states only its length in its contract. Its contents are stated by `BoundedPushLatest` and `PushAllLatest`.
- Hash-map iteration order is unspecified. `list_children` and `list_folders_tree` rows are not ordered among siblings, and JSON arrays are multisets.
- Sizes and counts are unbounded integers. `usize` overflow of the node count is not modelled.
- `FileInfo` numbers are unbounded in the datatype. The parser keeps them below 2^64.
- `to_string_lossy` and `OsString` conversions are left out: names are strings.
- Lower-casing covers ASCII letters only; other letters keep their case.
- `src/lib.rs`, `src/video/stream.rs`, `src/gui/main.rs`, the Qt setup in `src/gui/test.rs` and the device-dependent tests in `src/fs/mod.rs` are not part of this model.
