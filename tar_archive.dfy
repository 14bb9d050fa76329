/**
 * The writer side of the POSIX.1 ustar interchange format, as the partner
 * of the hw6 parser: members are laid out as a 512-byte header, the data,
 * NUL padding up to a whole block, and the archive ends with two zero
 * blocks.  The round-trip lemmas show that parse_tar_file recovers every
 * member of such an archive, at the data offset where its bytes are.
 */
module TarArchive {
  import opened Wrappers
  import opened TarIndex

  /** One member as an archiver sees it. */
  datatype Member = Member(name: seq<Byte>, link: seq<Byte>, data: seq<Byte>, typeflag: Byte,
                           mode: nat, uid: nat, gid: nat, mtime: nat)

  const Magic: seq<Byte> := [117, 115, 116, 97, 114, 0, 48, 48]  // "ustar\0" "00"
  const MagicAt: nat := 257
  const ChecksumAt: nat := 148

  function Pow8(w: nat): nat
  {
    if w == 0 then 1 else 8 * Pow8(w - 1)
  }

  /** n written with w octal digits, most significant first. */
  function OctalDigits(n: nat, w: nat): (r: seq<Byte>)
    ensures |r| == w && AllOctal(r)
  {
    if w == 0 then [] else OctalDigits(n / 8, w - 1) + [Digit0 + n % 8]
  }

  /** A numeric header field of w bytes: w-1 octal digits and a NUL. */
  function Field(n: nat, w: nat): (r: seq<Byte>)
    requires w >= 1
    ensures |r| == w
  {
    OctalDigits(n, w - 1) + [Nul]
  }

  /** A string field of w bytes: the string, NUL padded. */
  function Pad(s: seq<Byte>, w: nat): (r: seq<Byte>)
    requires |s| <= w
    ensures |r| == w
  {
    s + Zeros(w - |s|)
  }

  /**
   * What every field can hold: a name and a link of at most 99 bytes
   * without NUL (the name not empty), and numbers that fit their digits.
   */
  predicate MemberOk(m: Member)
  {
    && 0 < |m.name| < NameLen && Nul !in m.name
    && |m.link| < LinkLen && Nul !in m.link
    && m.mode < Pow8(7) && m.uid < Pow8(7) && m.gid < Pow8(7)
    && |m.data| < Pow8(11) && m.mtime < Pow8(11)
  }

  /** Byte i of a member's header block. The checksum field is left as spaces; the parser does not read it. */
  function HeaderByte(m: Member, i: nat): Byte
    requires MemberOk(m) && i < BlockSize
  {
    if i < ModeAt then Pad(m.name, NameLen)[i]
    else if i < UidAt then Field(m.mode, 8)[i - ModeAt]
    else if i < GidAt then Field(m.uid, 8)[i - UidAt]
    else if i < SizeAt then Field(m.gid, 8)[i - GidAt]
    else if i < MtimeAt then Field(|m.data|, 12)[i - SizeAt]
    else if i < ChecksumAt then Field(m.mtime, 12)[i - MtimeAt]
    else if i < TypeAt then Space
    else if i == TypeAt then m.typeflag
    else if i < MagicAt then Pad(m.link, LinkLen)[i - LinkAt]
    else if i < MagicAt + |Magic| then Magic[i - MagicAt]
    else Nul
  }

  function EncodeHeader(m: Member): (r: seq<Byte>)
    requires MemberOk(m)
    ensures |r| == BlockSize
  {
    seq(BlockSize, i requires 0 <= i < BlockSize => HeaderByte(m, i))
  }

  /** A header, the data, and NUL padding to a whole block. */
  function EncodeMember(m: Member): (r: seq<Byte>)
    requires MemberOk(m)
    ensures |r| == BlockSize + Padded(|m.data|)
  {
    EncodeHeader(m) + m.data + Zeros(Padded(|m.data|) - |m.data|)
  }

  predicate AllOk(ms: seq<Member>)
  {
    forall k :: 0 <= k < |ms| ==> MemberOk(ms[k])
  }

  /** The members one after the other, then the two zero blocks that end an archive. */
  function Archive(ms: seq<Member>): seq<Byte>
    requires AllOk(ms)
  {
    if ms == [] then Zeros(2 * BlockSize) else EncodeMember(ms[0]) + Archive(ms[1..])
  }

  /** The record parse_tar_file should build for a member whose data starts at dataOffset. */
  function Expected(m: Member, dataOffset: nat): Entry
  {
    Entry(Trimmed(m.name), if m.typeflag == TypeSymlink then Some(m.link) else None, |m.data|, m.typeflag,
          dataOffset, Narrow32(m.mode) as bv32, m.uid, m.gid, m.mtime)
  }

  /** The records for the members of an archive body starting at offset h. */
  function ExpectedFrom(ms: seq<Member>, h: nat): seq<Entry>
  {
    if ms == [] then []
    else [Expected(ms[0], h + BlockSize)] + ExpectedFrom(ms[1..], h + BlockSize + Padded(|ms[0].data|))
  }

  // ---------------------------------------------------------------- octal fields

  /** Reading back w octal digits gives the number written, when it fits. */
  lemma {:induction false} OctalRoundTrip(n: nat, w: nat)
    requires n < Pow8(w)
    ensures OctalValue(OctalDigits(n, w)) == n
  {
    if w > 0 {
      var ds := OctalDigits(n, w);
      assert ds[..|ds| - 1] == OctalDigits(n / 8, w - 1);
      OctalRoundTrip(n / 8, w - 1);
    }
  }

  /** The digit run of an octal field ends where its digits do. */
  lemma {:induction false} RunEndSkip(buf: seq<Byte>, i: nat, j: nat)
    requires i <= j <= |buf|
    requires forall k :: i <= k < j ==> IsOctal(buf[k])
    ensures RunEnd(buf, i) == RunEnd(buf, j)
    decreases j - i
  {
    if i < j {
      RunEndSkip(buf, i + 1, j);
    }
  }

  /** octal_to_int on a field the writer produced returns the number written. */
  lemma FieldValue(buf: seq<Byte>, at: nat, w: nat, n: nat)
    requires w >= 1 && at + w <= |buf| && n < Pow8(w - 1)
    requires buf[at..at + w] == Field(n, w)
    ensures OctalAt(buf, at) == n
  {
    var ds := OctalDigits(n, w - 1);
    assert buf[at..at + w - 1] == buf[at..at + w][..w - 1] == Field(n, w)[..w - 1] == ds;
    forall k | at <= k < at + w - 1
      ensures IsOctal(buf[k])
    {
      assert buf[k] == ds[k - at];
    }
    assert buf[at + w - 1] == Nul;
    RunEndSkip(buf, at, at + w - 1);
    OctalRoundTrip(n, w - 1);
  }

  // ---------------------------------------------------------------- header

  /** A run of the header block is the field the writer put there. */
  lemma HeaderSlice(m: Member, at: nat, part: seq<Byte>)
    requires MemberOk(m) && at + |part| <= BlockSize
    requires forall k :: 0 <= k < |part| ==> HeaderByte(m, at + k) == part[k]
    ensures EncodeHeader(m)[at..at + |part|] == part
  {
  }

  /** A numeric field of the header block reads back as the number written into it. */
  lemma HeaderNumber(m: Member, at: nat, w: nat, n: nat)
    requires MemberOk(m) && w >= 1 && at + w <= BlockSize && n < Pow8(w - 1)
    requires forall k :: 0 <= k < w ==> HeaderByte(m, at + k) == Field(n, w)[k]
    ensures OctalAt(EncodeHeader(m), at) == n
  {
    HeaderSlice(m, at, Field(n, w));
    FieldValue(EncodeHeader(m), at, w, n);
  }

  lemma HeaderNumbers(m: Member)
    requires MemberOk(m)
    ensures OctalAt(EncodeHeader(m), ModeAt) == m.mode
    ensures OctalAt(EncodeHeader(m), UidAt) == m.uid
    ensures OctalAt(EncodeHeader(m), GidAt) == m.gid
    ensures OctalAt(EncodeHeader(m), SizeAt) == |m.data|
    ensures OctalAt(EncodeHeader(m), MtimeAt) == m.mtime
  {
    ModeReads(m);
    UidReads(m);
    GidReads(m);
    SizeReads(m);
    MtimeReads(m);
  }

  lemma ModeReads(m: Member)
    requires MemberOk(m)
    ensures OctalAt(EncodeHeader(m), ModeAt) == m.mode
  {
    forall k | 0 <= k < 8 ensures HeaderByte(m, ModeAt + k) == Field(m.mode, 8)[k] {}
    HeaderNumber(m, ModeAt, 8, m.mode);
  }

  lemma UidReads(m: Member)
    requires MemberOk(m)
    ensures OctalAt(EncodeHeader(m), UidAt) == m.uid
  {
    forall k | 0 <= k < 8 ensures HeaderByte(m, UidAt + k) == Field(m.uid, 8)[k] {}
    HeaderNumber(m, UidAt, 8, m.uid);
  }

  lemma GidReads(m: Member)
    requires MemberOk(m)
    ensures OctalAt(EncodeHeader(m), GidAt) == m.gid
  {
    forall k | 0 <= k < 8 ensures HeaderByte(m, GidAt + k) == Field(m.gid, 8)[k] {}
    HeaderNumber(m, GidAt, 8, m.gid);
  }

  lemma SizeReads(m: Member)
    requires MemberOk(m)
    ensures OctalAt(EncodeHeader(m), SizeAt) == |m.data|
  {
    forall k | 0 <= k < 12 ensures HeaderByte(m, SizeAt + k) == Field(|m.data|, 12)[k] {}
    HeaderNumber(m, SizeAt, 12, |m.data|);
  }

  lemma MtimeReads(m: Member)
    requires MemberOk(m)
    ensures OctalAt(EncodeHeader(m), MtimeAt) == m.mtime
  {
    forall k | 0 <= k < 12 ensures HeaderByte(m, MtimeAt + k) == Field(m.mtime, 12)[k] {}
    HeaderNumber(m, MtimeAt, 12, m.mtime);
  }

  lemma HeaderStrings(m: Member)
    requires MemberOk(m)
    ensures CString(EncodeHeader(m)[NameAt..NameAt + NameLen]) == m.name
    ensures CString(EncodeHeader(m)[LinkAt..LinkAt + LinkLen]) == m.link
  {
    var b := EncodeHeader(m);
    HeaderSlice(m, NameAt, Pad(m.name, NameLen));
    assert Pad(m.name, NameLen)[..|m.name|] == m.name;
    CStringAt(Pad(m.name, NameLen), |m.name|);
    HeaderSlice(m, LinkAt, Pad(m.link, LinkLen));
    assert Pad(m.link, LinkLen)[..|m.link|] == m.link;
    CStringAt(Pad(m.link, LinkLen), |m.link|);
  }

  /** Decoding a header the writer produced gives back the member's record. */
  lemma HeaderRoundTrip(m: Member, dataOffset: nat)
    requires MemberOk(m)
    ensures HeaderEntry(EncodeHeader(m), dataOffset) == Expected(m, dataOffset)
  {
    HeaderNumbers(m);
    HeaderStrings(m);
    TypeByte(m);
    EntryOf(EncodeHeader(m), m, dataOffset);
  }

  lemma TypeByte(m: Member)
    requires MemberOk(m)
    ensures EncodeHeader(m)[TypeAt] == m.typeflag
  {
    assert EncodeHeader(m)[TypeAt] == HeaderByte(m, TypeAt);
  }

  /** A block whose fields read as m's decodes to m's record. */
  lemma EntryOf(b: seq<Byte>, m: Member, dataOffset: nat)
    requires |b| == BlockSize && MemberOk(m) && b[TypeAt] == m.typeflag
    requires CString(b[NameAt..NameAt + NameLen]) == m.name && CString(b[LinkAt..LinkAt + LinkLen]) == m.link
    requires OctalAt(b, ModeAt) == m.mode && OctalAt(b, UidAt) == m.uid && OctalAt(b, GidAt) == m.gid
    requires OctalAt(b, SizeAt) == |m.data| && OctalAt(b, MtimeAt) == m.mtime
    ensures HeaderEntry(b, dataOffset) == Expected(m, dataOffset)
  {
    Pow8Seven();
  }

  lemma Pow8Seven()
    ensures Pow8(7) == 0x20_0000
  {
  }

  // ---------------------------------------------------------------- archive

  /** The bytes of data sit in the archive from offset off. */
  predicate DataAt(archive: seq<Byte>, off: nat, data: seq<Byte>)
  {
    off + |data| <= |archive| && archive[off..off + |data|] == data
  }

  /**
   * The members sit at h one after the other: the walk decodes each header
   * to the member's record, the member's data follows its header, and a
   * zero byte stops the walk after the last one.
   */
  predicate Placed(archive: seq<Byte>, h: nat, ms: seq<Member>)
    decreases ms
  {
    if ms == [] then h < |archive| && archive[h] == Nul
    else
      && HasHeader(archive, h) && HeaderAt(archive, h) == Expected(ms[0], h + BlockSize)
      && DataAt(archive, h + BlockSize, ms[0].data)
      && Placed(archive, NextHeader(archive, h), ms[1..])
  }

  /** A header block at h, its data, padding, and what follows. */
  lemma LayoutStep(archive: seq<Byte>, h: nat, header: seq<Byte>, data: seq<Byte>, rest: seq<Byte>)
    requires |header| == BlockSize && h <= |archive|
    requires archive[h..] == header + data + Zeros(Padded(|data|) - |data|) + rest
    ensures h + BlockSize + Padded(|data|) <= |archive|
    ensures archive[h..h + BlockSize] == header
    ensures DataAt(archive, h + BlockSize, data)
    ensures archive[h + BlockSize + Padded(|data|)..] == rest
  {
    var n := h + BlockSize + Padded(|data|);
    assert archive[h..h + BlockSize] == archive[h..][..BlockSize];
    assert archive[h + BlockSize..h + BlockSize + |data|] == archive[h..][BlockSize..BlockSize + |data|];
    assert archive[n..] == archive[h..][BlockSize + Padded(|data|)..];
  }

  /** A member the writer put at h decodes to its record, and the walk moves on to what follows its padded data. */
  lemma MemberStep(archive: seq<Byte>, h: nat, m: Member, rest: seq<Byte>)
    requires MemberOk(m) && h <= |archive| && archive[h..] == EncodeMember(m) + rest
    ensures HasHeader(archive, h) && HeaderAt(archive, h) == Expected(m, h + BlockSize)
    ensures NextHeader(archive, h) == h + BlockSize + Padded(|m.data|)
    ensures DataAt(archive, h + BlockSize, m.data)
    ensures archive[h + BlockSize + Padded(|m.data|)..] == rest
  {
    var n := h + BlockSize + Padded(|m.data|);
    assert n <= |archive| && archive[h..h + BlockSize] == EncodeHeader(m)
        && DataAt(archive, h + BlockSize, m.data) && archive[n..] == rest by {
      assert archive[h..] == EncodeHeader(m) + m.data + Zeros(Padded(|m.data|) - |m.data|) + rest;
      LayoutStep(archive, h, EncodeHeader(m), m.data, rest);
    }
    MemberHeader(archive, h, m);
  }

  /** A written header block at h decodes to the member's record. */
  lemma MemberHeader(archive: seq<Byte>, h: nat, m: Member)
    requires MemberOk(m) && h + BlockSize <= |archive| && archive[h..h + BlockSize] == EncodeHeader(m)
    ensures HasHeader(archive, h) && HeaderAt(archive, h) == Expected(m, h + BlockSize)
  {
    FirstByte(m);
    assert archive[h] == archive[h..h + BlockSize][0];
    HeaderRoundTrip(m, h + BlockSize);
  }

  /** A written header does not start with NUL: the name is not empty. */
  lemma FirstByte(m: Member)
    requires MemberOk(m)
    ensures EncodeHeader(m)[0] != Nul
  {
    assert EncodeHeader(m)[0] == Pad(m.name, NameLen)[0] == m.name[0];
  }

  lemma AllOkTail(ms: seq<Member>)
    requires AllOk(ms) && ms != []
    ensures MemberOk(ms[0]) && AllOk(ms[1..])
  {
    forall k | 0 <= k < |ms[1..]|
      ensures MemberOk(ms[1..][k])
    {
      assert ms[1..][k] == ms[k + 1];
    }
  }

  /** Every member of a writer's archive body starting at h sits where Placed says. */
  lemma {:induction false} ArchivePlaced(archive: seq<Byte>, h: nat, ms: seq<Member>)
    requires AllOk(ms) && h <= |archive| && archive[h..] == Archive(ms)
    ensures Placed(archive, h, ms)
    decreases ms
  {
    if ms == [] {
      assert archive[h] == archive[h..][0];
    } else {
      AllOkTail(ms);
      MemberStep(archive, h, ms[0], Archive(ms[1..]));
      ArchivePlaced(archive, NextHeader(archive, h), ms[1..]);
    }
  }

  /** Wherever members are placed, the header walk yields one record per member, in order, with its data offset. */
  lemma {:induction false} EntriesOfPlaced(archive: seq<Byte>, h: nat, ms: seq<Member>)
    requires Placed(archive, h, ms)
    ensures Entries(archive, h) == ExpectedFrom(ms, h)
    decreases ms
  {
    if ms == [] {
      assert !HasHeader(archive, h);
    } else {
      EntriesOfPlaced(archive, NextHeader(archive, h), ms[1..]);
      EntriesHead(archive, h, ms);
    }
  }

  /** One member's header in place, and the walk after it, give the walk from its header. */
  lemma EntriesHead(archive: seq<Byte>, h: nat, ms: seq<Member>)
    requires ms != [] && HasHeader(archive, h) && HeaderAt(archive, h) == Expected(ms[0], h + BlockSize)
    requires Entries(archive, NextHeader(archive, h)) == ExpectedFrom(ms[1..], NextHeader(archive, h))
    ensures Entries(archive, h) == ExpectedFrom(ms, h)
  {
    var n := NextHeader(archive, h);
    NextOf(archive, h, ms[0]);
    ExpectedCons(ms, h, n);
    EntriesStep(archive, h, Expected(ms[0], h + BlockSize), ExpectedFrom(ms[1..], n));
  }

  lemma EntriesStep(archive: seq<Byte>, h: nat, e: Entry, rest: seq<Entry>)
    requires HasHeader(archive, h) && HeaderAt(archive, h) == e
    requires Entries(archive, NextHeader(archive, h)) == rest
    ensures Entries(archive, h) == [e] + rest
  {
    EntriesCons(archive, h);
  }

  /** The walk moves past a member's header and its padded data. */
  lemma NextOf(archive: seq<Byte>, h: nat, m: Member)
    requires HasHeader(archive, h) && HeaderAt(archive, h) == Expected(m, h + BlockSize)
    ensures NextHeader(archive, h) == h + BlockSize + Padded(|m.data|)
  {
  }

  lemma ExpectedCons(ms: seq<Member>, h: nat, n: nat)
    requires ms != [] && n == h + BlockSize + Padded(|ms[0].data|)
    ensures ExpectedFrom(ms, h) == [Expected(ms[0], h + BlockSize)] + ExpectedFrom(ms[1..], n)
  {
  }

  /** The header walk from a header is its record followed by the walk from the next header. */
  lemma EntriesCons(archive: seq<Byte>, h: nat)
    requires HasHeader(archive, h)
    ensures Entries(archive, h) == [HeaderAt(archive, h)] + Entries(archive, NextHeader(archive, h))
  {
  }

  /** Every placed member's data sits at the data offset of its record. */
  lemma {:induction false} PlacedData(archive: seq<Byte>, h: nat, ms: seq<Member>, k: nat)
    requires Placed(archive, h, ms) && k < |ms|
    ensures |ExpectedFrom(ms, h)| == |ms|
    ensures DataAt(archive, ExpectedFrom(ms, h)[k].dataOffset, ms[k].data)
    decreases k
  {
    var n := NextHeader(archive, h);
    NextOf(archive, h, ms[0]);
    ExpectedCons(ms, h, n);
    ExpectedLength(ms[1..], n);
    if k == 0 {
      assert ExpectedFrom(ms, h)[0] == Expected(ms[0], h + BlockSize);
    } else {
      PlacedData(archive, n, ms[1..], k - 1);
      assert ms[k] == ms[1..][k - 1];
      assert ExpectedFrom(ms, h)[k] == ExpectedFrom(ms[1..], n)[k - 1];
    }
  }

  lemma {:induction false} ExpectedLength(ms: seq<Member>, h: nat)
    ensures |ExpectedFrom(ms, h)| == |ms|
    decreases ms
  {
    if ms != [] {
      ExpectedLength(ms[1..], h + BlockSize + Padded(|ms[0].data|));
    }
  }

  /**
   * The record parse_tar_file builds for member k has that member's size, and
   * the archive bytes at its data offset are the member's data: reading a
   * file through the index returns what was archived.
   */
  lemma ParseContents(ms: seq<Member>, k: nat, archive: seq<Byte>)
    requires AllOk(ms) && k < |ms| && archive == Archive(ms)
    ensures |Entries(archive, 0)| == |ms|
    ensures Entries(archive, 0)[k].size == |ms[k].data| && DataAt(archive, Entries(archive, 0)[k].dataOffset, ms[k].data)
  {
    assert archive[0..] == archive;
    ArchivePlaced(archive, 0, ms);
    PlacedContents(archive, ms, k);
  }

  /** Wherever members are placed from offset 0, record k of the walk locates member k's data. */
  lemma PlacedContents(archive: seq<Byte>, ms: seq<Member>, k: nat)
    requires Placed(archive, 0, ms) && k < |ms|
    ensures |Entries(archive, 0)| == |ms|
    ensures Entries(archive, 0)[k].size == |ms[k].data| && DataAt(archive, Entries(archive, 0)[k].dataOffset, ms[k].data)
  {
    EntriesOfPlaced(archive, 0, ms);
    PlacedData(archive, 0, ms, k);
    ExpectedAt(ms, 0, k);
  }

  /** Record k of the expected walk describes member k. */
  lemma {:induction false} ExpectedAt(ms: seq<Member>, h: nat, k: nat)
    requires k < |ms|
    ensures |ExpectedFrom(ms, h)| == |ms|
    ensures ExpectedFrom(ms, h)[k].size == |ms[k].data|
    ensures ExpectedFrom(ms, h)[k].path == Trimmed(ms[k].name)
    decreases k
  {
    ExpectedLength(ms, h);
    if k > 0 {
      ExpectedAt(ms[1..], h + BlockSize + Padded(|ms[0].data|), k - 1);
      assert ms[k] == ms[1..][k - 1];
    }
  }

  /**
   * An archive whose first member holds 2 GiB of data: its header's size
   * field reads 20000000000. As written, current_offset goes negative, so
   * the next record's data_offset is negative, and the failed fseek leaves
   * the stream at 512, where the next fread takes the member's first data
   * block for a header. The walk of the model moves on past the data.
   */
  lemma LargeMemberAsWritten(m: Member, rest: seq<Byte>)
    requires MemberOk(m) && |m.data| == Two31
    ensures HasHeader(EncodeMember(m) + rest, 0)
    ensures NextHeaderAsWritten(EncodeMember(m) + rest, 0) + BlockSize < 0
    ensures StreamAfterAsWritten(EncodeMember(m) + rest, 0) == BlockSize
    ensures (EncodeMember(m) + rest)[BlockSize..2 * BlockSize] == m.data[..BlockSize]
    ensures NextHeader(EncodeMember(m) + rest, 0) == BlockSize + Two31
  {
    var archive := EncodeMember(m) + rest;
    assert archive[0..] == EncodeMember(m) + rest;
    MemberStep(archive, 0, m, rest);
    NextHeaderAsWrittenBackwards(archive, 0);
  }

  /** parse_tar_file on a writer's archive recovers every member, in order, with its data offset. */
  lemma ParseRoundTrip(ms: seq<Member>)
    requires AllOk(ms)
    ensures Entries(Archive(ms), 0) == ExpectedFrom(ms, 0)
  {
    assert Archive(ms)[0..] == Archive(ms);
    ArchivePlaced(Archive(ms), 0, ms);
    EntriesOfPlaced(Archive(ms), 0, ms);
  }
}
