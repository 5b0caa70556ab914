/**
 The pure parts of the `adb` client: how `exec_shell` builds its command
 line, how `exec_pty` collects output up to its sentinel, and the parsers
 that turn shell output into file records, timestamps, per-user app lists
 and path listings. The shell process itself is left out: each parser takes
 the text the process printed.
 */
module Adb {
  import opened Options
  import opened Text
  import opened FileTypes

  /* ---------------------------------------------------------------------- */
  /* Command construction                                                   */
  /* ---------------------------------------------------------------------- */

  datatype AdbHelper = AdbHelper(deviceSerial: Option<string>, adbPath: string, root: bool)

  /** `AdbHelper::new`: `adb` from the search path, no `su`. */
  function NewHelper(deviceSerial: Option<string>): (h: AdbHelper)
    ensures h.deviceSerial == deviceSerial && h.adbPath == "adb" && !h.root
  {
    AdbHelper(deviceSerial, "adb", false)
  }

  /** `AdbHelper::with_root`. */
  function WithRoot(h: AdbHelper): (r: AdbHelper)
    ensures r.root && r.deviceSerial == h.deviceSerial && r.adbPath == h.adbPath
  {
    h.(root := true)
  }

  /** `AdbHelper::with_adb_path`. */
  function WithAdbPath(h: AdbHelper, path: string): (r: AdbHelper)
    ensures r.adbPath == path && r.deviceSerial == h.deviceSerial && r.root == h.root
  {
    h.(adbPath := path)
  }

  /** A process to spawn: the program and its argument vector. */
  datatype Invocation = Invocation(program: string, args: seq<string>)

  /**
   The process `exec_shell(command)` spawns: `-s <serial>` only when a serial
   is set, then `shell`, then the command, prefixed by `su root ` when the
   helper runs as root.
   */
  function ShellInvocation(h: AdbHelper, command: string): (inv: Invocation)
    ensures inv.program == h.adbPath
    ensures |inv.args| == (if h.deviceSerial.Some? then 4 else 2)
    ensures h.deviceSerial.Some? ==> inv.args[0] == "-s" && inv.args[1] == h.deviceSerial.value
    ensures inv.args[|inv.args| - 2] == "shell"
    ensures inv.args[|inv.args| - 1] == (if h.root then "su root " + command else command)
  {
    var target := match h.deviceSerial
      case Some(serial) => ["-s", serial]
      case None => [];
    var shell := if h.root then "su root " + command else command;
    Invocation(h.adbPath, target + ["shell", shell])
  }

  /* ---------------------------------------------------------------------- */
  /* exec_pty                                                               */
  /* ---------------------------------------------------------------------- */

  /** The marker `exec_pty` echoes after the command to find the end of its output. */
  const Sentinel: string := "___DF_LV_RO___"

  /** The lines `exec_pty` writes to the shell's standard input. */
  function PtyScript(command: string): (script: seq<string>)
    ensures |script| == 3 && script[1] == command
    ensures script[2] == "echo " + Sentinel
  {
    ["su root", command, "echo " + Sentinel]
  }

  /**
   The process `exec_pty` spawns: an interactive `shell` on whatever device
   `adb` picks; the helper's serial is not passed.
   */
  function PtyInvocation(h: AdbHelper): (inv: Invocation)
    ensures inv.program == h.adbPath && inv.args == ["shell"]
  {
    Invocation(h.adbPath, ["shell"])
  }

  /** `String::pop`: the last character goes, whatever it is. */
  function DropLast(chunk: string): string
    requires |chunk| > 0
  {
    chunk[..|chunk| - 1]
  }

  /**
   The read loop of `exec_pty` over the pieces `read_line` returned: each
   piece loses its last character, and reading stops at the first piece that
   then starts with the sentinel.
   */
  function CollectUntilSentinel(chunks: seq<string>): (out: seq<string>)
    requires forall i :: 0 <= i < |chunks| ==> |chunks[i]| > 0
    ensures |out| <= |chunks|
    ensures forall i :: 0 <= i < |out| ==> out[i] == DropLast(chunks[i]) && !StartsWith(out[i], Sentinel)
    ensures |out| < |chunks| ==> StartsWith(DropLast(chunks[|out|]), Sentinel)
  {
    if |chunks| == 0 then []
    else
      var line := DropLast(chunks[0]);
      if StartsWith(line, Sentinel) then [] else [line] + CollectUntilSentinel(chunks[1..])
  }

  /** `exec_pty`'s result for everything the shell printed. */
  function PtyOutput(stream: string): seq<string>
  {
    CollectUntilSentinel(ReadLines(stream))
  }

  /** The text a shell prints for `lines`, one newline after each. */
  function Printed(lines: seq<string>): string
  {
    if |lines| == 0 then "" else lines[0] + "\n" + Printed(lines[1..])
  }

  lemma ReadLinesStep(line: string, rest: string)
    requires '\n' !in line
    ensures ReadLines(line + "\n" + rest) == [line + "\n"] + ReadLines(rest)
  {
    var s := line + "\n" + rest;
    assert s[..|line|] == line;
    IndexOfAt(s, '\n', |line|);
    assert s[..|line| + 1] == line + "\n";
    assert s[|line| + 1..] == rest;
  }

  lemma CollectStep(chunks: seq<string>)
    requires |chunks| > 0 && forall i :: 0 <= i < |chunks| ==> |chunks[i]| > 0
    ensures StartsWith(DropLast(chunks[0]), Sentinel) ==> CollectUntilSentinel(chunks) == []
    ensures !StartsWith(DropLast(chunks[0]), Sentinel) ==>
      CollectUntilSentinel(chunks) == [DropLast(chunks[0])] + CollectUntilSentinel(chunks[1..])
  {
  }

  lemma PrintedStep(lines: seq<string>, rest: string)
    requires |lines| > 0
    ensures Printed(lines) + rest == lines[0] + "\n" + (Printed(lines[1..]) + rest)
  {
  }

  /**
   When the command prints lines that neither contain a newline nor start
   with the sentinel, and the echoed sentinel line follows, `exec_pty`
   returns exactly those lines, whatever comes after the sentinel.
   */
  lemma {:induction false} PtyOutputRoundTrip(lines: seq<string>, after: string)
    requires forall i :: 0 <= i < |lines| ==> '\n' !in lines[i] && !StartsWith(lines[i], Sentinel)
    ensures PtyOutput(Printed(lines) + (Sentinel + "\n" + after)) == lines
  {
    var echo := Sentinel + "\n" + after;
    if |lines| == 0 {
      assert Printed(lines) + echo == echo;
      PtyStopsAtSentinel(after);
    } else {
      var tail := Printed(lines[1..]) + echo;
      PrintedStep(lines, echo);
      PtyOutputRoundTrip(lines[1..], after);
      PtyKeepsLine(lines[0], tail);
    }
  }

  lemma PtyStopsAtSentinel(after: string)
    ensures PtyOutput(Sentinel + "\n" + after) == []
  {
    ReadLinesStep(Sentinel, after);
    var chunks := ReadLines(Sentinel + "\n" + after);
    assert DropLast(chunks[0]) == Sentinel;
    CollectStep(chunks);
  }

  lemma PtyKeepsLine(line: string, tail: string)
    requires '\n' !in line && !StartsWith(line, Sentinel)
    ensures PtyOutput(line + "\n" + tail) == [line] + PtyOutput(tail)
  {
    ReadLinesStep(line, tail);
    var chunks := ReadLines(line + "\n" + tail);
    assert chunks[1..] == ReadLines(tail);
    assert DropLast(chunks[0]) == line;
    CollectStep(chunks);
  }

  /* ---------------------------------------------------------------------- */
  /* load_all: one `stat -c "%i|%A|%Z|%Y|%X|%U|%G|%s|%N"` line per node     */
  /* ---------------------------------------------------------------------- */

  /** Whether `s` holds `->` starting at `i`. */
  predicate ArrowAt(s: string, i: int)
  {
    0 <= i && i + 1 < |s| && s[i] == '-' && s[i + 1] == '>'
  }

  /** `s.split("->").next()`: the text before the first `->`, or all of it. */
  function BeforeArrow(s: string): (r: string)
    ensures |r| <= |s| && r == s[..|r|]
    ensures |r| < |s| ==> ArrowAt(s, |r|)
    ensures forall i :: 0 <= i < |r| ==> !ArrowAt(s, i)
  {
    if |s| < 2 then s
    else if ArrowAt(s, 0) then ""
    else
      var r := [s[0]] + BeforeArrow(s[1..]);
      assert forall i :: 1 <= i < |r| ==> ArrowAt(s, i) == ArrowAt(s[1..], i - 1);
      r
  }

  predicate IsApostrophe(c: char)
  {
    c == '\''
  }

  /** `%N` quotes the name: the path is the text before `->`, apostrophes trimmed. */
  function StatPath(field: string): string
  {
    TrimBoth(BeforeArrow(field), IsApostrophe)
  }

  /** `parse().unwrap_or(0)` for the `usize` and `u64` fields. */
  function NumberOrZero(field: string): (v: nat)
    ensures v < U64_LIMIT
    ensures ParseUnsigned(field, U64_LIMIT).None? ==> v == 0
  {
    ParseUnsigned(field, U64_LIMIT).GetOr(0)
  }

  /**
   One line of `load_all`: at most 9 `|`-separated fields, the ninth keeping
   any further `|`; fewer than 9 fields and the line is skipped. Fields 0 to 7
   are inode, permissions, change, modification and access times, user,
   group and size.
   */
  function ParseStatLine(line: string): (r: Option<(string, FileInfo)>)
    ensures r.Some? <==> Count(line, '|') >= 8
    ensures r.Some? ==> r.value.1.inode < U64_LIMIT && r.value.1.size < U64_LIMIT
  {
    var parts := SplitN(line, 9, '|');
    SplitNLength(line, 9, '|');
    if |parts| < 9 then None
    else
      Some((StatPath(parts[8]),
            FileInfo(
              inode := NumberOrZero(parts[0]),
              permissions := parts[1],
              createdTime := NumberOrZero(parts[2]),
              modifiedTime := NumberOrZero(parts[3]),
              accessedTime := NumberOrZero(parts[4]),
              user := parts[5],
              group := parts[6],
              size := NumberOrZero(parts[7]))))
  }

  /** `load_all` over the lines `exec_pty` returned. */
  function LoadAll(lines: seq<string>): (entries: seq<(string, FileInfo)>)
    ensures |entries| <= |lines|
    ensures |lines| == 1 ==> entries == match ParseStatLine(lines[0]) case None => [] case Some(e) => [e]
  {
    if |lines| == 0 then []
    else
      var rest := LoadAll(lines[1..]);
      match ParseStatLine(lines[0])
      case None => rest
      case Some(e) => [e] + rest
  }

  /** `load_all` keeps line order: parsing a concatenation concatenates the results. */
  lemma {:induction false} LoadAllAppend(a: seq<string>, b: seq<string>)
    ensures LoadAll(a + b) == LoadAll(a) + LoadAll(b)
  {
    if |a| > 0 {
      assert (a + b)[1..] == a[1..] + b;
      LoadAllAppend(a[1..], b);
    } else {
      assert a + b == b;
    }
  }

  /** One field without the separator in front of fields that split back keeps splitting back. */
  lemma SplitNJoinStep(head: string, tail: seq<string>, sep: char)
    requires |tail| > 0 && sep !in head
    requires SplitN(Join(tail, sep), |tail|, sep) == tail
    ensures SplitN(Join([head] + tail, sep), |tail| + 1, sep) == [head] + tail
  {
    var rest := Join(tail, sep);
    JoinStep(head, tail, sep);
    var s := head + [sep] + rest;
    assert s[..|head|] == head;
    IndexOfAt(s, sep, |head|);
    SplitNStep(s, |tail| + 1, sep, |head|);
    assert s[|head| + 1..] == rest;
  }

  /** Splitting the joined fields gives the fields back when only the last may hold the separator. */
  lemma {:induction false} SplitNJoin(parts: seq<string>, sep: char)
    requires |parts| > 0
    requires forall i :: 0 <= i < |parts| - 1 ==> sep !in parts[i]
    ensures SplitN(Join(parts, sep), |parts|, sep) == parts
    decreases |parts|
  {
    if |parts| > 1 {
      var tail := parts[1..];
      assert forall i :: 0 <= i < |tail| - 1 ==> tail[i] == parts[i + 1];
      SplitNJoin(tail, sep);
      SplitNJoinStep(parts[0], tail, sep);
      assert [parts[0]] + tail == parts;
    }
  }

  /** The line `stat` prints for a node at `path` with metadata `m`. */
  function StatLine(path: string, m: FileInfo): string
  {
    Join([Decimal(m.inode), m.permissions, Decimal(m.createdTime), Decimal(m.modifiedTime),
          Decimal(m.accessedTime), m.user, m.group, Decimal(m.size), "'" + path + "'"], '|')
  }

  predicate NoArrow(s: string)
  {
    forall i :: 0 <= i < |s| ==> !ArrowAt(s, i)
  }

  /**
   A `stat` line parses back to its record when the text fields hold no `|`,
   the numbers fit in 64 bits, and the path holds no `->` and neither starts
   nor ends with an apostrophe.
   */
  lemma StatLineRoundTrip(path: string, m: FileInfo)
    requires '|' !in m.permissions && '|' !in m.user && '|' !in m.group
    requires m.inode < U64_LIMIT && m.createdTime < U64_LIMIT && m.modifiedTime < U64_LIMIT
    requires m.accessedTime < U64_LIMIT && m.size < U64_LIMIT
    requires NoArrow(path) && path != [] && !IsApostrophe(path[0]) && !IsApostrophe(path[|path| - 1])
    ensures ParseStatLine(StatLine(path, m)) == Some((path, m))
  {
    var quoted := "'" + path + "'";
    var parts := [Decimal(m.inode), m.permissions, Decimal(m.createdTime), Decimal(m.modifiedTime),
                  Decimal(m.accessedTime), m.user, m.group, Decimal(m.size), quoted];
    forall i | 0 <= i < 8
      ensures '|' !in parts[i]
    {
      assert AllDigits(parts[i]) || parts[i] in {m.permissions, m.user, m.group};
    }
    SplitNJoin(parts, '|');
    QuotedPath(path);
    ParseUnsignedDecimal(m.inode, U64_LIMIT);
    ParseUnsignedDecimal(m.createdTime, U64_LIMIT);
    ParseUnsignedDecimal(m.modifiedTime, U64_LIMIT);
    ParseUnsignedDecimal(m.accessedTime, U64_LIMIT);
    ParseUnsignedDecimal(m.size, U64_LIMIT);
  }

  /** A quoted path without `->` and with no apostrophe at either end reads back as the path. */
  lemma QuotedPath(path: string)
    requires NoArrow(path) && path != [] && !IsApostrophe(path[0]) && !IsApostrophe(path[|path| - 1])
    ensures StatPath("'" + path + "'") == path
  {
    var quoted := "'" + path + "'";
    forall i | ArrowAt(quoted, i)
      ensures false
    {
      assert ArrowAt(path, i - 1);
    }
    assert BeforeArrow(quoted) == quoted;
    TrimQuotes(path);
  }

  lemma TrimQuotes(path: string)
    requires path != [] && !IsApostrophe(path[0]) && !IsApostrophe(path[|path| - 1])
    ensures TrimBoth("'" + path + "'", IsApostrophe) == path
  {
    var q := "'" + path + "'";
    var s := TrimStart(q, IsApostrophe);
    assert q[1..] == path + "'";
    assert TrimStart(q[1..], IsApostrophe) == path + "'";
    assert s == path + "'";
    assert s[..|s| - 1] == path;
    assert TrimEnd(s[..|s| - 1], IsApostrophe) == path;
  }

  /** A quoted path followed by a space has no `->` of its own, so the text before the link arrow is all of it. */
  lemma QuotedHeadBeforeArrow(path: string, rest: string)
    requires NoArrow(path) && path != []
    requires |rest| >= 2 && rest[0] == '-' && rest[1] == '>'
    ensures BeforeArrow("'" + path + "' " + rest) == "'" + path + "' "
  {
    var head := "'" + path + "' ";
    var field := head + rest;
    assert ArrowAt(field, |head|);
    forall i | 0 <= i < |head|
      ensures !ArrowAt(field, i)
    {
      if 1 <= i < |path| {
        assert field[i] == path[i - 1] && field[i + 1] == path[i];
        assert !ArrowAt(path, i - 1);
      }
    }
    BeforeArrowAt(field, |head|);
    assert field[..|head|] == head;
  }

  /** A symbolic link's line keeps the closing apostrophe and space before `->`. */
  lemma SymlinkPathKeepsQuote(path: string, target: string)
    requires NoArrow(path) && path != [] && !IsApostrophe(path[0])
    ensures StatPath("'" + path + "' -> '" + target + "'") == path + "' "
  {
    var head := "'" + path + "' ";
    var rest := "-> '" + target + "'";
    assert "'" + path + "' -> '" + target + "'" == head + rest;
    QuotedHeadBeforeArrow(path, rest);
    assert head[1..] == path + "' ";
    assert TrimStart(head, IsApostrophe) == path + "' ";
  }

  lemma BeforeArrowAt(s: string, k: nat)
    requires ArrowAt(s, k) && forall i :: 0 <= i < k ==> !ArrowAt(s, i)
    ensures BeforeArrow(s) == s[..k]
  {
  }

  /* ---------------------------------------------------------------------- */
  /* list_all: one `find -printf "%T@|%p\n"` line per node                  */
  /* ---------------------------------------------------------------------- */

  /** `s.split(sep).next()`: the text before the first `sep`, or all of it. */
  function BeforeChar(s: string, sep: char): (r: string)
    ensures |r| <= |s| && r == s[..|r|] && sep !in r
    ensures |r| < |s| ==> s[|r|] == sep
  {
    match IndexOf(s, sep)
    case None => s
    case Some(i) => s[..i]
  }

  /** `i32 as usize` on a 64-bit target: negative values wrap around. */
  function I32AsUsize(v: int): (r: nat)
    requires -(I32_LIMIT as int) <= v < I32_LIMIT
    ensures r < U64_LIMIT
    ensures v >= 0 ==> r == v
    ensures v < 0 ==> r == U64_LIMIT + v
  {
    if v >= 0 then v else U64_LIMIT + v
  }

  /**
   The timestamp of a `list_all` line: the integer part of `%T@`. The
   `parse()` there has no type annotation, so it parses an `i32` (the integer
   fallback) that is then cast to `usize`; anything unparsable is 0.
   */
  function ListAllTimestamp(field: string): (t: nat)
    ensures t < U64_LIMIT
  {
    match ParseI32(BeforeChar(field, '.'))
    case None => 0
    case Some(v) => I32AsUsize(v)
  }

  /** One line of `list_all`: lines without `|` are skipped; the path is all text after the first `|`. */
  function ParseListAllLine(line: string): (r: Option<(string, nat)>)
    ensures r.Some? <==> '|' in line
    ensures r.Some? ==> |r.value.0| < |line| && line[|line| - |r.value.0|..] == r.value.0
    ensures r.Some? ==> line[|line| - |r.value.0| - 1] == '|' && '|' !in line[..|line| - |r.value.0| - 1]
  {
    var parts := SplitN(line, 2, '|');
    SplitNLength(line, 2, '|');
    if |parts| != 2 then None
    else
      assert line == parts[0] + "|" + parts[1];
      assert line[..|parts[0]|] == parts[0];
      Some((parts[1], ListAllTimestamp(parts[0])))
  }

  /** `list_all` over the output of `find`. */
  function ListAll(output: string): seq<(string, nat)>
  {
    FilterListAll(Lines(output))
  }

  function FilterListAll(lines: seq<string>): (r: seq<(string, nat)>)
    ensures |r| <= |lines|
    ensures |lines| == 1 ==> r == match ParseListAllLine(lines[0]) case None => [] case Some(e) => [e]
  {
    if |lines| == 0 then []
    else
      var rest := FilterListAll(lines[1..]);
      match ParseListAllLine(lines[0])
      case None => rest
      case Some(e) => [e] + rest
  }

  /** A line whose time field holds no `|` splits at the first `|`. */
  lemma ListAllLineSplit(stamp: string, path: string)
    requires '|' !in stamp
    ensures ParseListAllLine(stamp + "|" + path) == Some((path, ListAllTimestamp(stamp)))
  {
    SplitNJoin([stamp, path], '|');
    assert Join([stamp, path], '|') == stamp + "|" + path;
  }

  /** The integer part of `%T@` is the text before the decimal point. */
  lemma StampInteger(seconds: nat, fraction: string)
    ensures '|' !in fraction ==> '|' !in Decimal(seconds) + "." + fraction
    ensures BeforeChar(Decimal(seconds) + "." + fraction, '.') == Decimal(seconds)
  {
    var d := Decimal(seconds);
    var stamp := d + "." + fraction;
    assert AllDigits(d);
    assert '|' !in d && '.' !in d;
    assert stamp[|d|] == '.' && stamp[..|d|] == d;
  }

  /** A `find` line for a time stamp that fits in an `i32` parses back to that time and path. */
  lemma ListAllLineRoundTrip(seconds: nat, fraction: string, path: string)
    requires seconds < I32_LIMIT && '|' !in fraction
    ensures ParseListAllLine(Decimal(seconds) + "." + fraction + "|" + path) == Some((path, seconds))
  {
    StampInteger(seconds, fraction);
    ListAllLineSplit(Decimal(seconds) + "." + fraction, path);
    ParseI32Decimal(seconds);
  }

  /**
   From 2^31 seconds on (January 2038) the `i32` parse overflows and the
   timestamp reads as 0.
   */
  lemma ListAllTimestampOverflow(seconds: nat, fraction: string, path: string)
    requires I32_LIMIT <= seconds && '|' !in fraction
    ensures ParseListAllLine(Decimal(seconds) + "." + fraction + "|" + path) == Some((path, 0))
  {
    StampInteger(seconds, fraction);
    ListAllLineSplit(Decimal(seconds) + "." + fraction, path);
    ParseI32Overflow(seconds);
  }

  /* ---------------------------------------------------------------------- */
  /* list_active_apps_users: `ps -o USER,NAME` lines grouped by user         */
  /* ---------------------------------------------------------------------- */

  /** The command `list_active_apps_users` runs. */
  const PsCommand: string := "ps -o USER,NAME|grep ^u"

  /**
   One `ps` line: the user is the text before the first space, the app the
   trimmed rest; a line without a space is skipped.
   */
  function ParseUserLine(line: string): (r: Option<(string, string)>)
    ensures r.Some? <==> ' ' in line
    ensures r.Some? ==> var user := r.value.0;
      |user| < |line| && line[..|user|] == user && line[|user|] == ' ' && ' ' !in user
    ensures r.Some? ==> r.value.1 == Trim(line[|r.value.0| + 1..])
  {
    var parts := SplitN(line, 2, ' ');
    SplitNLength(line, 2, ' ');
    if |parts| != 2 then None
    else
      JoinSplitN(line, 2, ' ');
      assert line == parts[0] + " " + parts[1];
      assert line[..|parts[0]|] == parts[0];
      assert line[|parts[0]| + 1..] == parts[1];
      Some((parts[0], Trim(parts[1])))
  }

  /**
   The map `list_active_apps_users` builds, line by line: the first app of a
   user is inserted, each further one appended after a comma.
   */
  function GroupApps(lines: seq<string>): (users: map<string, string>)
    ensures forall u :: u in users ==> ' ' !in u
  {
    if |lines| == 0 then map[]
    else AddApp(GroupApps(lines[..|lines| - 1]), ParseUserLine(lines[|lines| - 1]))
  }

  /** One step of the grouping: `entry().and_modify(..).or_insert(..)`. */
  function AddApp(users: map<string, string>, parsed: Option<(string, string)>): (r: map<string, string>)
    requires parsed.Some? ==> ' ' !in parsed.value.0
    requires forall u :: u in users ==> ' ' !in u
    ensures forall u :: u in r ==> ' ' !in u
  {
    if parsed.None? then users
    else
      var user := parsed.value.0;
      var app := parsed.value.1;
      if user in users then users[user := users[user] + "," + app] else users[user := app]
  }

  /** Reference: the apps of `user`, in line order. */
  function AppsOf(lines: seq<string>, user: string): seq<string>
  {
    if |lines| == 0 then []
    else
      var apps := AppsOf(lines[..|lines| - 1], user);
      var parsed := ParseUserLine(lines[|lines| - 1]);
      if parsed.Some? && parsed.value.0 == user then apps + [parsed.value.1] else apps
  }

  /**
   A user is a key exactly when some line names them, and their entry is
   their apps in line order joined with commas.
   */
  lemma {:induction false} GroupAppsAreJoinedApps(lines: seq<string>, user: string)
    ensures user in GroupApps(lines) <==> |AppsOf(lines, user)| > 0
    ensures user in GroupApps(lines) ==> GroupApps(lines)[user] == Join(AppsOf(lines, user), ',')
  {
    if |lines| > 0 {
      var init := lines[..|lines| - 1];
      GroupAppsAreJoinedApps(init, user);
      var parsed := ParseUserLine(lines[|lines| - 1]);
      var before := AppsOf(init, user);
      assert GroupApps(lines) == AddApp(GroupApps(init), parsed);
      if parsed.Some? && parsed.value.0 == user {
        assert AppsOf(lines, user) == before + [parsed.value.1];
        if |before| > 0 {
          JoinAppend(before, parsed.value.1, ',');
        }
      } else {
        assert AppsOf(lines, user) == before;
      }
    }
  }

  /* ---------------------------------------------------------------------- */
  /* list_files and list_folders_tree: one name per line                     */
  /* ---------------------------------------------------------------------- */

  /** The command `list_files(path)` runs. */
  function ListFilesCommand(path: string): (c: string)
    ensures |c| == |path| + 5 && StartsWith(c, "ls '") && c[|c| - 1] == '\''
    ensures c[4..|c| - 1] == path
  {
    "ls '" + path + "'"
  }

  /** The command `list_folders_tree(path)` runs. */
  function ListFoldersCommand(path: string): (c: string)
    ensures |c| == |path| + 22 && StartsWith(c, "find '") && c[6 + |path|..] == "' -type d -print"
    ensures c[6..6 + |path|] == path
  {
    "find '" + path + "' -type d -print"
  }

  /**
   The lines `keep` accepts, each trimmed afterwards. The test sees the line
   before trimming, so a line of blanks passes a non-emptiness test and
   becomes "".
   */
  function KeepTrimmed(lines: seq<string>, keep: string -> bool): (r: seq<string>)
    ensures |r| <= |lines|
    ensures forall k :: 0 <= k < |r| ==> Trimmed(r[k])
  {
    if |lines| == 0 then []
    else
      var rest := KeepTrimmed(lines[1..], keep);
      if keep(lines[0]) then [Trim(lines[0])] + rest else rest
  }

  /** An entry comes out exactly when an accepted line trims to it. */
  lemma {:induction false} KeepTrimmedMembers(lines: seq<string>, keep: string -> bool, name: string)
    ensures name in KeepTrimmed(lines, keep) <==>
      exists i :: 0 <= i < |lines| && keep(lines[i]) && Trim(lines[i]) == name
  {
    if |lines| > 0 {
      KeepTrimmedMembers(lines[1..], keep, name);
      if exists i :: 0 <= i < |lines| && keep(lines[i]) && Trim(lines[i]) == name {
        var i :| 0 <= i < |lines| && keep(lines[i]) && Trim(lines[i]) == name;
        if i > 0 {
          assert lines[1..][i - 1] == lines[i];
        }
      }
      if exists j :: 0 <= j < |lines[1..]| && keep(lines[1..][j]) && Trim(lines[1..][j]) == name {
        var j :| 0 <= j < |lines[1..]| && keep(lines[1..][j]) && Trim(lines[1..][j]) == name;
        assert lines[j + 1] == lines[1..][j];
      }
    }
  }

  /** When every line is accepted, every line comes out, trimmed and in order. */
  lemma {:induction false} KeepTrimmedAll(lines: seq<string>, keep: string -> bool)
    requires forall i :: 0 <= i < |lines| ==> keep(lines[i])
    ensures |KeepTrimmed(lines, keep)| == |lines|
    ensures forall i :: 0 <= i < |lines| ==> KeepTrimmed(lines, keep)[i] == Trim(lines[i])
  {
    if |lines| > 0 {
      assert forall i :: 0 <= i < |lines[1..]| ==> lines[1..][i] == lines[i + 1];
      KeepTrimmedAll(lines[1..], keep);
    }
  }

  /** Filtering and trimming line by line keeps the order of the lines. */
  lemma {:induction false} KeepTrimmedAppend(a: seq<string>, b: seq<string>, keep: string -> bool)
    ensures KeepTrimmed(a + b, keep) == KeepTrimmed(a, keep) + KeepTrimmed(b, keep)
  {
    if |a| > 0 {
      assert (a + b)[1..] == a[1..] + b;
      KeepTrimmedAppend(a[1..], b, keep);
    } else {
      assert a + b == b;
    }
  }

  predicate NonEmpty(line: string)
  {
    line != ""
  }

  /** The line filter of `list_folders_tree`: `find:` lines are error messages. */
  predicate FolderLine(line: string)
  {
    line != "" && !StartsWith(line, "find:")
  }

  /** `list_files` over the output of `ls`. */
  function ListFiles(output: string): seq<string>
  {
    KeepTrimmed(Lines(output), NonEmpty)
  }

  /** `list_folders_tree` over the output of `find`. */
  function ListFolders(output: string): seq<string>
  {
    KeepTrimmed(Lines(output), FolderLine)
  }

  /** A line of blanks is listed as the empty name. */
  lemma BlankLineListedEmpty(line: string)
    requires line != [] && forall i :: 0 <= i < |line| ==> IsWhitespace(line[i])
    ensures KeepTrimmed([line], NonEmpty) == [""]
  {
  }

  /** `find:` messages never reach the folder list, indented ones do. */
  lemma FindMessageDropped(message: string)
    ensures KeepTrimmed(["find:" + message], FolderLine) == []
    ensures KeepTrimmed([" find:" + message], FolderLine) == [Trim(" find:" + message)]
  {
    assert StartsWith("find:" + message, "find:");
    assert ("find:" + message)[..5] == "find:";
    assert (" find:" + message)[..5] != "find:" by {
      assert (" find:" + message)[0] == ' ';
    }
  }
}
