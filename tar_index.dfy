/**
 * hw6/111511141.c, the loading half: a read-only file system over a tar
 * archive keeps one record per archive member in a singly linked list,
 * built by walking the archive's 512-byte header blocks in the ustar
 * interchange format of POSIX.1 (IEEE Std 1003.1, pax utility, "ustar
 * Interchange Format").  The archive is a byte sequence; the global list
 * is the class NodeList.
 */
module TarIndex {
  import opened Wrappers

  /** An unsigned char. */
  type Byte = b: int | 0 <= b < 256

  const BlockSize: nat := 512

  const Nul: Byte := 0
  const Space: Byte := 32
  const Slash: Byte := 47
  const Digit0: Byte := 48
  const Digit7: Byte := 55
  /** Typeflag '2': a symbolic link. */
  const TypeSymlink: Byte := 50
  /** Typeflag '5': a directory. */
  const TypeDirectory: Byte := 53

  // Field offsets and widths of a ustar header block.
  const NameAt: nat := 0
  const NameLen: nat := 100
  const ModeAt: nat := 100
  const UidAt: nat := 108
  const GidAt: nat := 116
  const SizeAt: nat := 124
  const MtimeAt: nat := 136
  const TypeAt: nat := 156
  const LinkAt: nat := 157
  const LinkLen: nat := 100

  const Two32: nat := 0x1_0000_0000
  const Two31: nat := 0x8000_0000

  /**
   * The in-memory record of one archive member (struct TarNode without its
   * link).  `linkname` is present only for a symbolic link (the C record's
   * field is left zeroed, an empty string, otherwise).  `mode` is a mode_t,
   * `uid` and `gid` are 32-bit ids, and `mtime` keeps the full value
   * octal_to_int returns.  `size` also keeps that full value; TarNode's
   * `int size` is `Int32(size)`, which getattr and read apply where the C
   * code reads the field.
   */
  datatype Entry = Entry(path: seq<Byte>, linkname: Option<seq<Byte>>, size: nat, typeflag: Byte,
                         dataOffset: nat, mode: bv32, uid: nat, gid: nat, mtime: nat)

  // ---------------------------------------------------------------- C strings

  /** The C string stored in a buffer: the bytes before the first NUL, or all of them. */
  function CString(s: seq<Byte>): (r: seq<Byte>)
    ensures |r| <= |s| && r == s[..|r|] && Nul !in r
    ensures |r| < |s| ==> s[|r|] == Nul
  {
    if s == [] || s[0] == Nul then [] else [s[0]] + CString(s[1..])
  }

  /** A buffer whose first NUL is at k holds the C string of its first k bytes. */
  lemma {:induction false} CStringAt(s: seq<Byte>, k: nat)
    requires k <= |s| && Nul !in s[..k] && (k < |s| ==> s[k] == Nul)
    ensures CString(s) == s[..k]
  {
    if k > 0 {
      assert s[0] in s[..k];
      assert s[1..][..k - 1] == s[1..k];
      assert forall b :: b in s[1..k] ==> b in s[..k];
      CStringAt(s[1..], k - 1);
    }
  }

  /** n NUL bytes. */
  function Zeros(n: nat): (r: seq<Byte>)
    ensures |r| == n && forall i :: 0 <= i < n ==> r[i] == Nul
  {
    seq(n, _ => Nul)
  }

  /** strlen: the index of the first NUL. */
  method StrLen(a: array<Byte>) returns (n: nat)
    requires Nul in a[..]
    ensures n == |CString(a[..])| && n < a.Length && a[n] == Nul
  {
    n := 0;
    while a[n] != Nul
      invariant n < a.Length && Nul !in a[..n] && Nul in a[n..]
      decreases a.Length - n
    {
      assert a[..n + 1] == a[..n] + [a[n]];
      assert a[n..] == [a[n]] + a[n + 1..];
      n := n + 1;
    }
    CStringAt(a[..], n);
  }

  // ---------------------------------------------------------------- octal fields

  predicate IsOctal(b: Byte)
  {
    Digit0 <= b <= Digit7
  }

  predicate AllOctal(ds: seq<Byte>)
  {
    forall i :: 0 <= i < |ds| ==> IsOctal(ds[i])
  }

  /** The value of an octal digit (only ever applied to digits). */
  function Digit(b: Byte): nat
  {
    if IsOctal(b) then b - Digit0 else 0
  }

  /** The number an octal digit string denotes, most significant digit first. */
  function OctalValue(ds: seq<Byte>): nat
  {
    if ds == [] then 0 else OctalValue(ds[..|ds| - 1]) * 8 + Digit(ds[|ds| - 1])
  }

  /** Where the run of octal digits starting at i ends. */
  function RunEnd(buf: seq<Byte>, i: nat): (j: nat)
    requires i <= |buf|
    ensures i <= j <= |buf|
    ensures j < |buf| ==> !IsOctal(buf[j])
    decreases |buf| - i
  {
    if i < |buf| && IsOctal(buf[i]) then RunEnd(buf, i + 1) else i
  }

  /** The run RunEnd delimits is made of octal digits only. */
  lemma {:induction false} RunDigits(buf: seq<Byte>, i: nat)
    requires i <= |buf|
    ensures AllOctal(buf[i..RunEnd(buf, i)])
    decreases |buf| - i
  {
    if i < |buf| && IsOctal(buf[i]) {
      RunDigits(buf, i + 1);
      assert buf[i..RunEnd(buf, i)] == [buf[i]] + buf[i + 1..RunEnd(buf, i + 1)];
    }
  }

  /** The value octal_to_int reads from the buffer at i. */
  function OctalAt(buf: seq<Byte>, i: nat): nat
    requires i <= |buf|
  {
    OctalValue(buf[i..RunEnd(buf, i)])
  }

  /**
   * octal_to_int: fold digits as value*8 + d, stopping at a NUL, at a space
   * or at the first byte that is not an octal digit (the end of the buffer
   * also stops it).  The result is the value of the maximal digit run.
   */
  method OctalToInt(buf: seq<Byte>, start: nat) returns (value: nat)
    requires start <= |buf|
    ensures value == OctalAt(buf, start)
  {
    value := 0;
    var k := start;
    while k < |buf| && buf[k] != Nul && buf[k] != Space
      invariant start <= k <= |buf|
      invariant RunEnd(buf, k) == RunEnd(buf, start)
      invariant value == OctalValue(buf[start..k])
      decreases |buf| - k
    {
      if buf[k] < Digit0 || buf[k] > Digit7 {
        break;
      }
      assert buf[start..k + 1][..k - start] == buf[start..k];
      value := value * 8 + (buf[k] - Digit0);
      assert buf[k] - Digit0 == Digit(buf[k]);
      k := k + 1;
    }
  }

  // ---------------------------------------------------------------- paths

  /** A path with one trailing '/' removed, if it has one. */
  function Trimmed(p: seq<Byte>): seq<Byte>
  {
    if |p| > 0 && p[|p| - 1] == Slash then p[..|p| - 1] else p
  }

  /** trim_slash removes exactly one trailing '/' and leaves other paths alone. */
  lemma TrimmedOnce(p: seq<Byte>)
    ensures Trimmed(p + [Slash]) == p
    ensures (p == [] || p[|p| - 1] != Slash) ==> Trimmed(p) == p
  {
    assert (p + [Slash])[..|p|] == p;
  }

  /**
   * trim_slash: overwrite a trailing '/' of the C string in the buffer with
   * a NUL; only that one byte may change.
   */
  method TrimSlash(path: array<Byte>)
    requires Nul in path[..]
    modifies path
    ensures CString(path[..]) == Trimmed(CString(old(path[..])))
    ensures forall k :: 0 <= k < path.Length && path[k] != old(path[k]) ==>
              path[k] == Nul && k == |CString(old(path[..]))| - 1
  {
    var len := StrLen(path);
    if len > 0 && path[len - 1] == Slash {
      ghost var s := path[..];
      assert s[..len - 1] == s[..len][..len - 1];
      path[len - 1] := Nul;
      assert path[..] == s[len - 1 := Nul];
      assert path[..len - 1] == s[..len - 1];
      CStringAt(path[..], len - 1);
    }
  }

  // ---------------------------------------------------------------- headers

  /** A mode_t, uid_t or gid_t keeps the low 32 bits of the value it is assigned. */
  function Narrow32(v: nat): (r: nat)
    ensures r < Two32 && (v < Two32 ==> r == v)
  {
    v % Two32
  }

  /** The number of data blocks after a header: the size divided by 512, rounded up. */
  function Blocks(size: nat): nat
  {
    (size + BlockSize - 1) / BlockSize
  }

  /** The bytes the data of a member occupies: its size rounded up to whole blocks. */
  function Padded(size: nat): (r: nat)
    ensures size <= r < size + BlockSize && r % BlockSize == 0
  {
    Blocks(size) * BlockSize
  }

  /**
   * The record parse_tar_file builds from one header block whose data
   * starts at dataOffset: the name field as a C string without one trailing
   * '/', the numeric fields through octal_to_int, and the link field only
   * for a symbolic link (the record is zeroed otherwise).
   */
  function HeaderEntry(block: seq<Byte>, dataOffset: nat): Entry
    requires |block| == BlockSize
  {
    var typ := block[TypeAt];
    Entry(Trimmed(CString(block[NameAt..NameAt + NameLen])),
          if typ == TypeSymlink then Some(CString(block[LinkAt..LinkAt + LinkLen])) else None,
          OctalAt(block, SizeAt), typ, dataOffset,
          Narrow32(OctalAt(block, ModeAt)) as bv32,
          Narrow32(OctalAt(block, UidAt)), Narrow32(OctalAt(block, GidAt)), OctalAt(block, MtimeAt))
  }

  /** Whether a header block starts at h: a full block whose first byte is not NUL. */
  predicate HasHeader(archive: seq<Byte>, h: nat)
  {
    h + BlockSize <= |archive| && archive[h] != Nul
  }

  /** The record for the header block at h. */
  function HeaderAt(archive: seq<Byte>, h: nat): (e: Entry)
    requires HasHeader(archive, h)
    ensures e.dataOffset == h + BlockSize
  {
    HeaderEntry(archive[h..h + BlockSize], h + BlockSize)
  }

  /** The offset of the header after the member whose header is at h. */
  function NextHeader(archive: seq<Byte>, h: nat): (r: nat)
    requires HasHeader(archive, h)
    ensures r >= h + BlockSize
  {
    h + BlockSize + Padded(HeaderAt(archive, h).size)
  }

  /**
   * The size as struct TarNode holds it: octal_to_int's long stored in an
   * int, which keeps the low 32 bits as a two's-complement value.
   */
  function Int32(v: nat): (r: int)
    ensures -(Two31 as int) <= r < Two31 && r <= v
    ensures v < Two31 ==> r == v
    ensures Two31 <= v < Two32 ==> r == v - Two32
  {
    var w := v % Two32;
    if w < Two31 then w else w - Two32
  }

  /** Int32 keeps the low 32 bits: it differs from v by a multiple of 2^32. */
  lemma Int32LowBits(v: nat)
    ensures (v - Int32(v)) % Two32 == 0
  {
    var q, w := v / Two32, v % Two32;
    assert v == q * Two32 + w;
    var k := if w < Two31 then q else q + 1;
    assert v - Int32(v) == k * Two32;
    MultipleMod(k);
  }

  lemma MultipleMod(k: int)
    ensures (k * Two32) % Two32 == 0
  {
  }

  /** C's division of ints: the quotient truncated toward zero. */
  function CDiv(a: int, b: nat): (q: int)
    requires b > 0
    ensures a >= 0 ==> q == a / b
    ensures a < 0 ==> q == -((-a) / b)
  {
    if a >= 0 then a / b else -((-a) / b)
  }

  /**
   * The value parse_tar_file's current_offset takes after the member whose
   * header is at h, with the size narrowed to an int and data_blocks rounded
   * with C's division. It is also the target of the fseek past the data, and
   * it is the corrected step whenever the size and the rounding fit in an int.
   */
  function NextHeaderAsWritten(archive: seq<Byte>, h: nat): (r: int)
    requires HasHeader(archive, h)
    ensures HeaderAt(archive, h).size + BlockSize - 1 < Two31 ==> r == NextHeader(archive, h)
  {
    h + BlockSize + CDiv(Int32(HeaderAt(archive, h).size) + BlockSize - 1, BlockSize) * BlockSize
  }

  /**
   * Where the archive stream stands after the fseek past the data of the
   * header at h, the stream having just read that header: the seek target
   * when it is a position, and otherwise just past the header, since fseek
   * fails on a negative position and leaves the stream where it was.
   */
  function StreamAfterAsWritten(archive: seq<Byte>, h: nat): (r: nat)
    requires HasHeader(archive, h)
    ensures NextHeaderAsWritten(archive, h) >= 0 ==> r == NextHeaderAsWritten(archive, h)
    ensures NextHeaderAsWritten(archive, h) < 0 ==> r == h + BlockSize
    ensures HeaderAt(archive, h).size + BlockSize - 1 < Two31 ==> r == NextHeader(archive, h)
  {
    var t := NextHeaderAsWritten(archive, h);
    if t >= 0 then t else h + BlockSize
  }

  /**
   * A header whose size field reads 20000000000 (octal, 2 GiB) makes
   * data_blocks -4194303, so current_offset drops below h. Below offset
   * 2147482624 the seek target is negative, the fseek fails, and the stream
   * next reads the member's first data block as a header; from there on the
   * stream goes backwards.
   */
  lemma NextHeaderAsWrittenBackwards(archive: seq<Byte>, h: nat)
    requires HasHeader(archive, h) && HeaderAt(archive, h).size == Two31
    ensures NextHeaderAsWritten(archive, h) == h + BlockSize - 4194303 * BlockSize < h
    ensures h + BlockSize < 4194303 * BlockSize ==> StreamAfterAsWritten(archive, h) == h + BlockSize
    ensures h + BlockSize >= 4194303 * BlockSize ==> StreamAfterAsWritten(archive, h) < h
    ensures NextHeader(archive, h) == h + BlockSize + Two31
  {
    assert Int32(Two31) == -(Two31 as int);
    assert CDiv(-(Two31 as int) + BlockSize - 1, BlockSize) == -4194303;
  }

  /**
   * The records of the members from the header at h on, in archive order:
   * the walk stops at a short block or at a block whose first byte is NUL.
   */
  function Entries(archive: seq<Byte>, h: nat): seq<Entry>
    decreases |archive| - h
  {
    if !HasHeader(archive, h) then []
    else [HeaderAt(archive, h)] + Entries(archive, NextHeader(archive, h))
  }

  /** A record's data follows a header block inside the archive. */
  predicate Inside(archive: seq<Byte>, e: Entry)
  {
    BlockSize <= e.dataOffset <= |archive| && HasHeader(archive, e.dataOffset - BlockSize)
  }

  /** Every record the walk from h finds has its header at or after h, inside the archive. */
  lemma {:induction false} EntriesInside(archive: seq<Byte>, h: nat)
    ensures forall k :: 0 <= k < |Entries(archive, h)| ==>
              h + BlockSize <= Entries(archive, h)[k].dataOffset && Inside(archive, Entries(archive, h)[k])
    decreases |archive| - h
  {
    if HasHeader(archive, h) {
      var n := NextHeader(archive, h);
      EntriesInside(archive, n);
      var es, rest := Entries(archive, h), Entries(archive, n);
      assert es == [HeaderAt(archive, h)] + rest;
      forall k | 0 <= k < |es|
        ensures h + BlockSize <= es[k].dataOffset && Inside(archive, es[k])
      {
        if k > 0 {
          assert es[k] == rest[k - 1];
        }
      }
    }
  }

  /** The walk's records are chained: each header follows the previous record's data rounded up to whole blocks. */
  lemma {:induction false} EntriesChained(archive: seq<Byte>, h: nat)
    ensures forall k :: 0 <= k < |Entries(archive, h)| - 1 ==>
              Entries(archive, h)[k + 1].dataOffset ==
              Entries(archive, h)[k].dataOffset + Padded(Entries(archive, h)[k].size) + BlockSize
    decreases |archive| - h
  {
    if HasHeader(archive, h) {
      var n := NextHeader(archive, h);
      EntriesChained(archive, n);
      var es, rest := Entries(archive, h), Entries(archive, n);
      assert es == [HeaderAt(archive, h)] + rest;
      forall k | 0 <= k < |es| - 1
        ensures es[k + 1].dataOffset == es[k].dataOffset + Padded(es[k].size) + BlockSize
      {
        if k == 0 {
          assert HasHeader(archive, n);
          assert rest[0] == HeaderAt(archive, n);
        } else {
          assert es[k] == rest[k - 1] && es[k + 1] == rest[k];
        }
      }
    }
  }

  /**
   * The path of a record: strncpy of the 100-byte name field into a zeroed
   * 256-byte buffer, then trim_slash on that buffer.
   */
  method ReadName(block: seq<Byte>) returns (p: seq<Byte>)
    requires |block| == BlockSize
    ensures p == Trimmed(CString(block[NameAt..NameAt + NameLen]))
  {
    var name := CString(block[NameAt..NameAt + NameLen]);
    var path := new Byte[256](_ => Nul);
    for i := 0 to |name|
      invariant path[..i] == name[..i]
      invariant forall j :: i <= j < path.Length ==> path[j] == Nul
    {
      path[i] := name[i];
    }
    assert path[..|name|] == name && path[|name|] == Nul;
    CStringAt(path[..], |name|);
    TrimSlash(path);
    p := CString(path[..]);
  }

  /**
   * ReadHeader: the field-by-field decoding of parse_tar_file for one block
   * (the path, octal_to_int at each numeric field, the link only for
   * typeflag '2').
   */
  method ReadHeader(block: seq<Byte>, dataOffset: nat) returns (e: Entry)
    requires |block| == BlockSize
    ensures e == HeaderEntry(block, dataOffset)
  {
    var path := ReadName(block);
    var mode := OctalToInt(block, ModeAt);
    var uid := OctalToInt(block, UidAt);
    var gid := OctalToInt(block, GidAt);
    var size := OctalToInt(block, SizeAt);
    var mtime := OctalToInt(block, MtimeAt);
    var typ := block[TypeAt];
    var link := None;
    if typ == TypeSymlink {
      link := Some(CString(block[LinkAt..LinkAt + LinkLen]));
    }
    e := Entry(path, link, size, typ, dataOffset, Narrow32(mode) as bv32, Narrow32(uid), Narrow32(gid), mtime);
  }

  // ---------------------------------------------------------------- the node list

  lemma Regroup(a: seq<Entry>, e: Entry, b: seq<Entry>)
    ensures (a + [e]) + b == a + ([e] + b)
  {
  }

  /** The global list headed by `head`, in archive order. */
  class NodeList {
    var nodes: seq<Entry>

    /** The list starts empty (head == NULL). */
    constructor ()
      ensures nodes == []
    {
      nodes := [];
    }

    /** add_node: append at the tail, keeping the order of the records already there. */
    method AddNode(e: Entry)
      modifies this
      ensures nodes == old(nodes) + [e]
    {
      nodes := nodes + [e];
    }

    /**
     * parse_tar_file: read block after block from offset 0; stop at a short
     * block or at a block whose first byte is NUL; otherwise decode the
     * header, record the data offset one block later, skip the padded data
     * and append the record.  The list gains exactly the archive's records.
     */
    method ParseTar(archive: seq<Byte>)
      modifies this
      ensures nodes == old(nodes) + Entries(archive, 0)
    {
      var current: nat := 0;
      while current + BlockSize <= |archive| && archive[current] != Nul
        invariant old(nodes) + Entries(archive, 0) == nodes + Entries(archive, current)
        decreases |archive| - current
      {
        ghost var h := current;
        var node := ReadHeader(archive[current..current + BlockSize], current + BlockSize);
        current := current + BlockSize;
        var dataBlocks := (node.size + BlockSize - 1) / BlockSize;
        current := current + dataBlocks * BlockSize;
        assert current == NextHeader(archive, h) by {
          assert dataBlocks == Blocks(node.size);
        }
        assert Entries(archive, h) == [node] + Entries(archive, current);
        ghost var before := nodes;
        AddNode(node);
        Regroup(before, node, Entries(archive, current));
      }
    }
  }
}
