/**
 * hw6/111511141.c, the file-system half: getattr, readdir, read and
 * readlink answer from the record list parse_tar_file built.  A FUSE path
 * is a byte string starting with '/'; an operation that fails returns the
 * negated errno, written here as Errno(code).
 */
module TarOps {
  import opened Wrappers
  import opened TarIndex

  const ENOENT: nat := 2
  const EISDIR: nat := 21
  const EINVAL: nat := 22

  // File-type bits of st_mode.
  const S_IFMT: bv32 := 0xF000
  const S_IFDIR: bv32 := 0x4000
  const S_IFREG: bv32 := 0x8000
  const S_IFLNK: bv32 := 0xA000

  const Dot: seq<Byte> := [46]
  const DotDot: seq<Byte> := [46, 46]

  /** What an operation returns: a negated errno or its result. */
  datatype Reply<T> = Errno(code: nat) | Ok(value: T)

  /** The struct stat fields my_getattr fills in; st_size comes from the record's `int` size. */
  datatype Stat = Stat(mode: bv32, size: int, uid: nat, gid: nat, mtime: nat)

  // ---------------------------------------------------------------- lookup

  /** A FUSE path without its one leading '/'. */
  function Target(path: seq<Byte>): (t: seq<Byte>)
    ensures |path| > 0 && path[0] == Slash ==> [Slash] + t == path
    ensures (|path| == 0 || path[0] != Slash) ==> t == path
  {
    if |path| > 0 && path[0] == Slash then path[1..] else path
  }

  /** The first record at or after i whose path is t. */
  function FindFrom(nodes: seq<Entry>, t: seq<Byte>, i: nat): (r: Option<nat>)
    requires i <= |nodes|
    ensures r.Some? ==> i <= r.value < |nodes| && nodes[r.value].path == t
    ensures r.Some? ==> forall j :: i <= j < r.value ==> nodes[j].path != t
    ensures r.None? ==> forall j :: i <= j < |nodes| ==> nodes[j].path != t
    decreases |nodes| - i
  {
    if i == |nodes| then None
    else if nodes[i].path == t then Some(i)
    else FindFrom(nodes, t, i + 1)
  }

  /**
   * get_node: strip one leading '/'; the root (an empty rest) has no
   * record; otherwise the first record whose path matches exactly.
   */
  function GetNode(nodes: seq<Entry>, path: seq<Byte>): Option<nat>
  {
    var t := Target(path);
    if t == [] then None else FindFrom(nodes, t, 0)
  }

  /** get_node finds a record exactly when some record has the path, and then the first one. */
  lemma GetNodeSpec(nodes: seq<Entry>, path: seq<Byte>)
    ensures GetNode(nodes, path).Some? <==>
              Target(path) != [] && exists j :: 0 <= j < |nodes| && nodes[j].path == Target(path)
    ensures GetNode(nodes, path).Some? ==>
              var k := GetNode(nodes, path).value;
              k < |nodes| && nodes[k].path == Target(path) && forall j :: 0 <= j < k ==> nodes[j].path != Target(path)
  {
  }

  // ---------------------------------------------------------------- getattr

  /** The file-type bits my_getattr puts in st_mode: '5' a directory, '2' a link, anything else a regular file. */
  function TypeBits(typeflag: Byte): bv32
  {
    if typeflag == TypeDirectory then S_IFDIR
    else if typeflag == TypeSymlink then S_IFLNK
    else S_IFREG
  }

  /**
   * my_getattr: "/" is a read-only directory owned by the calling process
   * (whose ids are parameters here); an unknown path is ENOENT; otherwise
   * the record's type bits or'ed with its mode, its size as the `int` the
   * record holds, and its ids and mtime.
   */
  function Getattr(nodes: seq<Entry>, path: seq<Byte>, ownerUid: nat, ownerGid: nat): Reply<Stat>
  {
    if path == [Slash] then Ok(Stat(S_IFDIR | 0x124, 0, ownerUid, ownerGid, 0))
    else match GetNode(nodes, path)
      case None => Errno(ENOENT)
      case Some(k) =>
        var e := nodes[k];
        Ok(Stat(TypeBits(e.typeflag) | e.mode, Int32(e.size), e.uid, e.gid, e.mtime))
  }

  /**
   * getattr fails only for a path other than "/" that names no record, and
   * st_mode's type is a directory for typeflag '5', a link for '2' and a
   * regular file otherwise, when the header's mode holds permission bits only;
   * st_size is the member's size below 2 GiB and negative from 2 GiB to 4 GiB.
   */
  lemma GetattrKinds(nodes: seq<Entry>, path: seq<Byte>, ownerUid: nat, ownerGid: nat)
    ensures Getattr(nodes, path, ownerUid, ownerGid).Errno? <==> path != [Slash] && GetNode(nodes, path).None?
    ensures path == [Slash] ==> Getattr(nodes, path, ownerUid, ownerGid).value.mode & S_IFMT == S_IFDIR
    ensures path != [Slash] && GetNode(nodes, path).Some? ==>
              var e := nodes[GetNode(nodes, path).value];
              var st := Getattr(nodes, path, ownerUid, ownerGid).value;
              e.mode & S_IFMT == 0 ==>
                && (st.mode & S_IFMT == S_IFDIR <==> e.typeflag == TypeDirectory)
                && (st.mode & S_IFMT == S_IFLNK <==> e.typeflag == TypeSymlink)
                && (st.mode & S_IFMT == S_IFREG <==> e.typeflag != TypeDirectory && e.typeflag != TypeSymlink)
                && st.mode & !S_IFMT == e.mode
    ensures path != [Slash] && GetNode(nodes, path).Some? ==>
              var e := nodes[GetNode(nodes, path).value];
              var st := Getattr(nodes, path, ownerUid, ownerGid).value;
              && (e.size < Two31 ==> st.size == e.size)
              && (Two31 <= e.size < Two32 ==> st.size == e.size - Two32 < 0)
  {
    if path != [Slash] && GetNode(nodes, path).Some? {
      var e := nodes[GetNode(nodes, path).value];
      if e.mode & S_IFMT == 0 {
        ModeKinds(e.typeflag, e.mode);
      }
    }
  }

  /** Or-ing the type bits into a mode without type bits keeps the mode and shows the type. */
  lemma ModeKinds(typeflag: Byte, mode: bv32)
    requires mode & S_IFMT == 0
    ensures (TypeBits(typeflag) | mode) & S_IFMT == TypeBits(typeflag)
    ensures (TypeBits(typeflag) | mode) & !S_IFMT == mode
  {
  }

  // ---------------------------------------------------------------- readdir

  /** The path of a name inside directory t ("" is the root). */
  function Join(t: seq<Byte>, name: seq<Byte>): seq<Byte>
  {
    if t == [] then name else t + [Slash] + name
  }

  /**
   * The is_child test of my_readdir: at the root, a path without '/'; in
   * directory t, a path that starts with t and '/' and has no '/' after that.
   */
  predicate IsChild(t: seq<Byte>, p: seq<Byte>)
  {
    if t == [] then Slash !in p
    else |p| > |t| && p[..|t|] == t && p[|t|] == Slash && Slash !in p[|t| + 1..]
  }

  /** The name my_readdir emits for a child: the path after "t/". */
  function ChildName(t: seq<Byte>, p: seq<Byte>): seq<Byte>
    requires IsChild(t, p)
  {
    if t == [] then p else p[|t| + 1..]
  }

  /** A child of t is t joined with a name without '/', the name readdir emits. */
  lemma ChildIsJoin(t: seq<Byte>, p: seq<Byte>)
    requires IsChild(t, p)
    ensures Slash !in ChildName(t, p) && Join(t, ChildName(t, p)) == p
  {
    if t != [] {
      assert p == p[..|t|] + [p[|t|]] + p[|t| + 1..];
    }
  }

  /** Conversely, t joined with any name without '/' is a child of t, listed under that name. */
  lemma JoinIsChild(t: seq<Byte>, name: seq<Byte>)
    requires Slash !in name
    ensures IsChild(t, Join(t, name)) && ChildName(t, Join(t, name)) == name
  {
    if t != [] {
      var p := t + [Slash] + name;
      assert p[..|t|] == t && p[|t|] == Slash && p[|t| + 1..] == name;
    }
  }

  /** The names the walk over the records emits for directory t, in record order. */
  function Children(nodes: seq<Entry>, t: seq<Byte>): seq<seq<Byte>>
  {
    if nodes == [] then []
    else (if IsChild(t, nodes[0].path) then [ChildName(t, nodes[0].path)] else []) + Children(nodes[1..], t)
  }

  /** my_readdir: ".", "..", then the children of the directory the path names. */
  function Readdir(nodes: seq<Entry>, path: seq<Byte>): seq<seq<Byte>>
  {
    [Dot, DotDot] + Children(nodes, Target(path))
  }

  /** A name is listed for t exactly when some record is a child of t under that name. */
  lemma {:induction false} ChildrenSpec(nodes: seq<Entry>, t: seq<Byte>, name: seq<Byte>)
    ensures name in Children(nodes, t) <==>
              exists k :: 0 <= k < |nodes| && IsChild(t, nodes[k].path) && ChildName(t, nodes[k].path) == name
  {
    if nodes != [] {
      ChildrenSpec(nodes[1..], t, name);
      if exists k :: 0 <= k < |nodes| && IsChild(t, nodes[k].path) && ChildName(t, nodes[k].path) == name {
        var k :| 0 <= k < |nodes| && IsChild(t, nodes[k].path) && ChildName(t, nodes[k].path) == name;
        if k > 0 {
          assert nodes[1..][k - 1] == nodes[k];
        }
      }
      if name in Children(nodes[1..], t) {
        var k :| 0 <= k < |nodes[1..]| && IsChild(t, nodes[1..][k].path) && ChildName(t, nodes[1..][k].path) == name;
        assert nodes[k + 1] == nodes[1..][k];
      }
    }
  }

  /**
   * The listing starts with "." and "..", and every other name it holds
   * resolves: getattr on the directory's path joined with the name finds a
   * record (unless that joined path is the root itself).
   */
  lemma ReaddirResolves(nodes: seq<Entry>, path: seq<Byte>, name: seq<Byte>)
    requires name in Children(nodes, Target(path)) && Join(Target(path), name) != []
    ensures Readdir(nodes, path)[..2] == [Dot, DotDot]
    ensures GetNode(nodes, [Slash] + Join(Target(path), name)).Some?
  {
    var t := Target(path);
    ChildrenSpec(nodes, t, name);
    var k :| 0 <= k < |nodes| && IsChild(t, nodes[k].path) && ChildName(t, nodes[k].path) == name;
    ChildIsJoin(t, nodes[k].path);
    assert Target([Slash] + Join(t, name)) == Join(t, name);
  }

  // ---------------------------------------------------------------- read

  /** fread at pos: up to n bytes, fewer at the end of the archive. */
  function FileRead(archive: seq<Byte>, pos: nat, n: nat): (r: seq<Byte>)
    ensures |r| <= n
    ensures pos + n <= |archive| ==> r == archive[pos..pos + n]
  {
    if pos >= |archive| then [] else if pos + n > |archive| then archive[pos..] else archive[pos..pos + n]
  }

  /**
   * my_read: ENOENT for an unknown path, EISDIR for a directory, nothing
   * from the end of the file on; otherwise the request clamped to the end
   * of the file, read from the member's data.  The end of the file is the
   * record's `int` size, so a member whose size narrows to a negative int
   * reads as empty.
   */
  function Read(nodes: seq<Entry>, archive: seq<Byte>, path: seq<Byte>, size: nat, offset: nat): Reply<seq<Byte>>
  {
    match GetNode(nodes, path)
    case None => Errno(ENOENT)
    case Some(k) =>
      var e := nodes[k];
      if e.typeflag == TypeDirectory then Errno(EISDIR)
      else
        var sz := Int32(e.size);
        if offset >= sz then Ok([])
        else
          var n := if offset + size > sz then sz - offset else size;
          Ok(FileRead(archive, e.dataOffset + offset, n))
  }

  /** The bytes of a member's data, as the archive holds them. */
  function Content(archive: seq<Byte>, e: Entry): seq<Byte>
    requires e.dataOffset + e.size <= |archive|
  {
    archive[e.dataOffset..e.dataOffset + e.size]
  }

  /**
   * A successful read returns at most the requested bytes and never past
   * the end of the file, which is the member's size narrowed to an int;
   * when the archive holds the member's data it is exactly the requested
   * window of that data, clamped to that end.  A member of less than 2 GiB
   * ends at its size, and one of 2 GiB up to 4 GiB reads as empty.
   */
  lemma ReadWindow(nodes: seq<Entry>, archive: seq<Byte>, path: seq<Byte>, size: nat, offset: nat)
    ensures Read(nodes, archive, path, size, offset).Errno? <==>
              GetNode(nodes, path).None? || nodes[GetNode(nodes, path).value].typeflag == TypeDirectory
    ensures Read(nodes, archive, path, size, offset).Ok? ==>
              var e := nodes[GetNode(nodes, path).value];
              var d := Read(nodes, archive, path, size, offset).value;
              var sz := Int32(e.size);
              && |d| <= size
              && (e.size < Two31 ==> sz == e.size)
              && (Two31 <= e.size < Two32 ==> d == [])
              && (offset >= sz ==> d == [])
              && (offset < sz ==> |d| <= sz - offset)
              && (offset < sz && e.dataOffset + e.size <= |archive| ==>
                    d == Content(archive, e)[offset..if offset + size > sz then sz else offset + size])
  {
    match GetNode(nodes, path)
    case None =>
    case Some(k) =>
      var e := nodes[k];
      var sz := Int32(e.size);
      if e.typeflag != TypeDirectory && offset < sz && e.dataOffset + e.size <= |archive| {
        var hi := if offset + size > sz then sz else offset + size;
        assert e.dataOffset + offset + (hi - offset) <= |archive|;
        forall i | 0 <= i < hi - offset
          ensures Content(archive, e)[offset..hi][i] == archive[e.dataOffset + offset..e.dataOffset + hi][i]
        {
        }
        assert Content(archive, e)[offset..hi] == archive[e.dataOffset + offset..e.dataOffset + hi];
      }
  }

  // ---------------------------------------------------------------- readlink

  /** strncpy into n bytes: the source string cut to n bytes, then NUL padding up to n. */
  function StrNCpy(src: seq<Byte>, n: nat): seq<Byte>
  {
    var c := CString(src);
    var m := if |c| < n then |c| else n;
    c[..m] + Zeros(n - m)
  }

  /** The link field of a record: the target for a link, the zeroed field (an empty string) otherwise. */
  function LinkText(e: Entry): seq<Byte>
  {
    match e.linkname
    case Some(target) => target
    case None => []
  }

  /**
   * my_readlink: ENOENT for an unknown path, EINVAL for anything but a
   * symbolic link; otherwise the link target copied into the caller's
   * buffer of `size` bytes, cut to size-1 bytes and NUL-terminated.
   */
  function Readlink(nodes: seq<Entry>, path: seq<Byte>, size: nat): Reply<seq<Byte>>
    requires size >= 1
  {
    match GetNode(nodes, path)
    case None => Errno(ENOENT)
    case Some(k) =>
      var e := nodes[k];
      if e.typeflag != TypeSymlink then Errno(EINVAL)
      else Ok(StrNCpy(LinkText(e), size - 1) + [Nul])
  }

  /**
   * readlink fills exactly the caller's buffer, and the C string it holds
   * is the link target, cut to size-1 bytes.
   */
  lemma ReadlinkTarget(nodes: seq<Entry>, path: seq<Byte>, size: nat)
    requires size >= 1
    ensures Readlink(nodes, path, size).Errno? <==>
              GetNode(nodes, path).None? || nodes[GetNode(nodes, path).value].typeflag != TypeSymlink
    ensures Readlink(nodes, path, size).Ok? ==>
              var link := CString(LinkText(nodes[GetNode(nodes, path).value]));
              var buf := Readlink(nodes, path, size).value;
              |buf| == size && CString(buf) == link[..if |link| < size - 1 then |link| else size - 1]
  {
    match GetNode(nodes, path)
    case None =>
    case Some(k) =>
      var e := nodes[k];
      if e.typeflag == TypeSymlink {
        var c := CString(LinkText(e));
        var m := if |c| < size - 1 then |c| else size - 1;
        var buf := StrNCpy(LinkText(e), size - 1) + [Nul];
        assert buf[..m] == c[..m];
        assert buf[m] == Nul;
        assert Nul !in c[..m];
        CStringAt(buf, m);
      }
  }
}
