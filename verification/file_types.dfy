/** The node kinds of the device file tree and the metadata `stat` reports for a node. */
module FileTypes {

  datatype FileType = File | Directory | Symlink | Other

  /**
   The file-type character `ls -l` and `stat %A` put in front of a permission
   string. It is only used to state what `FromChar` recognises.
   */
  function TypeChar(t: FileType): char
    requires t != Other
  {
    match t
    case File => '-'
    case Directory => 'd'
    case Symlink => 'l'
  }

  /** `FileType::from(&char)`: the type a permission string's first character denotes. */
  function FromChar(c: char): (t: FileType)
    ensures t != Other ==> TypeChar(t) == c
    ensures t == Other <==> c != '-' && c != 'd' && c != 'l'
  {
    match c
    case '-' => File
    case 'd' => Directory
    case 'l' => Symlink
    case _ => Other
  }

  /** Every recognised type is read back from its own character. */
  lemma FromTypeChar(t: FileType)
    requires t != Other
    ensures FromChar(TypeChar(t)) == t
  {
  }

  /** `FileType::default`: the type a node gets when nothing is known about it. */
  function DefaultType(): (t: FileType)
    ensures t == FromChar('d')
  {
    Directory
  }

  /**
   `FileInfo`: one `stat -c "%i|%A|%Z|%Y|%X|%U|%G|%s|%N"` record. The numeric
   fields are `usize` and `u64` in the source, so below 2^64.
   */
  datatype FileInfo = FileInfo(
    inode: nat,
    permissions: string,
    createdTime: nat,
    modifiedTime: nat,
    accessedTime: nat,
    user: string,
    group: string,
    size: nat)

  /** `FileInfo::default()`: zero numbers and empty strings. */
  function DefaultInfo(): (m: FileInfo)
    ensures m.inode == m.createdTime == m.modifiedTime == m.accessedTime == m.size == 0
    ensures m.permissions == m.user == m.group == ""
  {
    FileInfo(0, "", 0, 0, 0, "", "", 0)
  }

  /**
   The type `FileSystem::refresh` gives an entry: that of the first permission
   character, or of `'?'` (so `Other`) when the permission string is empty.
   */
  function TypeOfPermissions(permissions: string): (t: FileType)
    ensures permissions == [] ==> t == Other
    ensures permissions != [] ==> t == FromChar(permissions[0])
  {
    FromChar(if |permissions| > 0 then permissions[0] else '?')
  }
}
