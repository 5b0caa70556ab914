/**
 The file-browser icon chosen from a file name's extension. Each icon is
 named after the emoji the front-end shows.
 */
module Icons {
  import opened Options
  import opened Text

  datatype Icon =
    | FramedPicture   // images
    | ClapperBoard    // videos
    | MusicalNotes    // audio
    | ClosedBook      // pdf
    | BlueBook        // word processing
    | GreenBook       // spreadsheets
    | OrangeBook      // presentations
    | PageFacingUp    // plain text, and the default
    | Package         // archives
    | Memo            // source code
    | Clipboard       // markup and data files
    | MobilePhone     // Android packages
    | Gear            // Dalvik executables
    | Wrench          // shared libraries

  /** The icon a file gets when its extension is unknown or it has none. */
  const DefaultIcon: Icon := PageFacingUp

  /** `char::to_lowercase` restricted to ASCII letters. */
  function LowerChar(c: char): (r: char)
    ensures 'A' <= c <= 'Z' ==> r as int == c as int + 32
    ensures !('A' <= c <= 'Z') ==> r == c
  {
    if 'A' <= c <= 'Z' then (c as int + 32) as char else c
  }

  /** `str::to_lowercase` restricted to ASCII letters. */
  function Lower(s: string): (r: string)
    ensures |r| == |s|
    ensures forall i :: 0 <= i < |s| ==> r[i] == LowerChar(s[i])
  {
    seq(|s|, i requires 0 <= i < |s| => LowerChar(s[i]))
  }

  /** The text after the last `.`, if there is a `.` at all. */
  function Extension(name: string): (r: Option<string>)
    ensures r.None? <==> '.' !in name
    ensures r.Some? ==> |r.value| < |name| && name[|name| - |r.value| - 1] == '.'
    ensures r.Some? ==> r.value == name[|name| - |r.value|..] && '.' !in r.value
  {
    match LastIndexOf(name, '.')
    case None => None
    case Some(i) => Some(name[i + 1..])
  }

  /** The icon of each known (lower-case) extension. */
  function IconOf(ext: string): Icon
  {
    match ext
    case "jpg" => FramedPicture
    case "jpeg" => FramedPicture
    case "png" => FramedPicture
    case "gif" => FramedPicture
    case "bmp" => FramedPicture
    case "svg" => FramedPicture
    case "webp" => FramedPicture
    case "mp4" => ClapperBoard
    case "avi" => ClapperBoard
    case "mkv" => ClapperBoard
    case "mov" => ClapperBoard
    case "wmv" => ClapperBoard
    case "flv" => ClapperBoard
    case "webm" => ClapperBoard
    case "mp3" => MusicalNotes
    case "wav" => MusicalNotes
    case "flac" => MusicalNotes
    case "aac" => MusicalNotes
    case "ogg" => MusicalNotes
    case "m4a" => MusicalNotes
    case "pdf" => ClosedBook
    case "doc" => BlueBook
    case "docx" => BlueBook
    case "xls" => GreenBook
    case "xlsx" => GreenBook
    case "ppt" => OrangeBook
    case "pptx" => OrangeBook
    case "txt" => PageFacingUp
    case "md" => PageFacingUp
    case "zip" => Package
    case "rar" => Package
    case "7z" => Package
    case "tar" => Package
    case "gz" => Package
    case "rs" => Memo
    case "py" => Memo
    case "js" => Memo
    case "ts" => Memo
    case "java" => Memo
    case "cpp" => Memo
    case "c" => Memo
    case "h" => Memo
    case "html" => Clipboard
    case "css" => Clipboard
    case "xml" => Clipboard
    case "json" => Clipboard
    case "yaml" => Clipboard
    case "yml" => Clipboard
    case "apk" => MobilePhone
    case "dex" => Gear
    case "so" => Wrench
    case _ => DefaultIcon
  }

  /**
   `get_file_icon`: the name is lower-cased, and the text after its last `.`
   picks the icon; a name without `.` gets the default icon.
   */
  function FileIcon(name: string): (icon: Icon)
    ensures '.' !in name ==> icon == DefaultIcon
    ensures '.' in name ==> icon == IconOf(Lower(Extension(name).value))
  {
    var lowered := Lower(name);
    LowerKeepsDots(name);
    match Extension(lowered)
    case None => DefaultIcon
    case Some(ext) =>
      LowerCommutesWithExtension(name);
      IconOf(ext)
  }

  lemma LowerKeepsDots(s: string)
    ensures '.' in Lower(s) <==> '.' in s
  {
    if '.' in s {
      var i :| 0 <= i < |s| && s[i] == '.';
      assert Lower(s)[i] == '.';
    }
  }

  lemma LowerSlice(s: string, k: nat)
    requires k <= |s|
    ensures Lower(s)[k..] == Lower(s[k..])
  {
  }

  /** `rfind` is pinned down by the position it reports. */
  lemma LastIndexOfAt(s: string, c: char, k: nat)
    requires k < |s| && s[k] == c && c !in s[k + 1..]
    ensures LastIndexOf(s, c) == Some(k)
  {
  }

  /** Lower-casing and taking the extension commute: the dots do not move. */
  lemma LowerCommutesWithExtension(name: string)
    requires '.' in name
    ensures Extension(Lower(name)) == Some(Lower(Extension(name).value))
  {
    var i := LastIndexOf(name, '.').value;
    LowerSlice(name, i + 1);
    LowerKeepsDots(name[i + 1..]);
    LastIndexOfAt(Lower(name), '.', i);
  }

  /** Lower-casing twice is lower-casing once. */
  lemma LowerIdempotent(s: string)
    ensures Lower(Lower(s)) == Lower(s)
  {
  }

  /** The icon does not depend on letter case. */
  lemma IconIgnoresCase(name: string)
    ensures FileIcon(Lower(name)) == FileIcon(name)
  {
    LowerKeepsDots(name);
    if '.' in name {
      LowerCommutesWithExtension(name);
      LowerIdempotent(Extension(name).value);
    }
  }

  /**
   Only the extension matters: two names whose text after the last `.` is the
   same up to case get the same icon, whatever comes before it.
   */
  lemma {:induction false} IconDependsOnlyOnExtension(a: string, b: string)
    requires '.' in a && '.' in b
    requires Lower(Extension(a).value) == Lower(Extension(b).value)
    ensures FileIcon(a) == FileIcon(b)
  {
  }

  /** An extension that names no icon group gets the default icon. */
  lemma UnknownExtension(ext: string)
    requires |ext| < 1 || |ext| > 4
    ensures IconOf(ext) == DefaultIcon
  {
  }

  /** A name ending in `.` has an empty extension and so the default icon. */
  lemma TrailingDotIsDefault(stem: string)
    ensures FileIcon(stem + ".") == DefaultIcon
  {
    var name := stem + ".";
    LastIndexOfAt(name, '.', |stem|);
    assert Extension(name) == Some("");
    assert Lower("") == "";
    UnknownExtension("");
  }

  /** An upper-case extension picks the same icon as its lower-case form. */
  lemma ExampleUpperCase()
    ensures FileIcon("IMG_0001.JPG") == FramedPicture
  {
    LastIndexOfAt("IMG_0001.JPG", '.', 8);
    assert Extension("IMG_0001.JPG") == Some("JPG");
    assert Lower("JPG") == "jpg";
  }

  /** Only the last extension counts. */
  lemma ExampleLastDot()
    ensures FileIcon("scan.pdf.jpg") == FramedPicture
  {
    LastIndexOfAt("scan.pdf.jpg", '.', 8);
    assert Extension("scan.pdf.jpg") == Some("jpg");
    assert Lower("jpg") == "jpg";
  }
}
