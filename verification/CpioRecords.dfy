/** newc and CRC cpio records (`crates/lamfold-cpio/src/cpio.rs`): the parser, a printer,
    and the proof that parsing undoes printing. */
module CpioRecords {
  import opened Bytes
  import opened Frontend

  const NEWC_HEADER: nat := 110
  const NEWC_MAGIC: seq<byte> := [0x30, 0x37, 0x30, 0x37, 0x30, 0x31]
  const CRC_MAGIC: seq<byte> := [0x30, 0x37, 0x30, 0x37, 0x30, 0x32]
  const TRAILER: seq<byte> := [0x54, 0x52, 0x41, 0x49, 0x4c, 0x45, 0x52, 0x21, 0x21, 0x21]
  const MAX_NAME: nat := 4096

  const S_IFDIR: nat := 4
  const S_IFREG: nat := 8
  const S_IFLNK: nat := 10

  /** The file type bits of a mode, shifted down. */
  function TypeBits(mode: nat): nat
  {
    mode / 0x1000 % 16
  }

  /** Offsets and lengths into the archive. */
  datatype Extent = Extent(off: nat, len: nat)

  /** A hard link's identity within one archive. */
  datatype InodeId = InodeId(devmajor: nat, devminor: nat, ino: nat)

  datatype Record = Record(name: Extent, mode: nat, inode: InodeId, nlink: nat, data: Extent)

  // ----- the parser -----

  function Align4(n: nat): (r: nat)
    ensures n <= r < n + 4 && r % 4 == 0
  {
    (n + 3) / 4 * 4
  }

  /** `char::to_digit(16)`: either case. */
  function HexVal(b: byte): Option<nat>
  {
    if 0x30 <= b <= 0x39 then Some(b - 0x30)
    else if 0x41 <= b <= 0x46 then Some(b - 0x37)
    else if 0x61 <= b <= 0x66 then Some(b - 0x57)
    else None
  }

  /** The digits, and nothing else. */
  lemma {:induction false} HexValIff(b: byte, d: nat)
    ensures HexVal(b) == Some(d) <==> d < 16 && (b == "0123456789abcdef"[d] as int || b == "0123456789ABCDEF"[d] as int)
  {
  }

  /** The fold over a field's digits. */
  function HexFold(digits: seq<byte>): Option<nat>
  {
    if digits == [] then Some(0)
    else
      var acc, d := HexFold(digits[..|digits| - 1]), HexVal(digits[|digits| - 1]);
      if acc.Some? && d.Some? then Some(acc.value * 16 + d.value) else None
  }

  /** Field `i` of the header at `at`. */
  function HexField(archive: seq<byte>, at: nat, i: nat): Result<nat>
  {
    var start := at + 6 + i * 8;
    if start + 8 > |archive| then Err(Corrupt)
    else match HexFold(archive[start..start + 8]) case Some(v) => Ok(v) case None => Err(Corrupt)
  }

  function ByteSum(data: seq<byte>): nat
  {
    if data == [] then 0 else (ByteSum(data[..|data| - 1]) + data[|data| - 1]) % U32
  }

  /** The header fields the parser reads. */
  datatype Header = Header(ino: nat, mode: nat, nlink: nat, filesize: nat, devmajor: nat, devminor: nat, namesize: nat, check: nat)

  function ParseHeader(archive: seq<byte>, at: nat): Result<Header>
  {
    var ino :- HexField(archive, at, 0);
    var mode :- HexField(archive, at, 1);
    var nlink :- HexField(archive, at, 4);
    var filesize :- HexField(archive, at, 6);
    var devmajor :- HexField(archive, at, 7);
    var devminor :- HexField(archive, at, 8);
    var namesize :- HexField(archive, at, 11);
    var check :- HexField(archive, at, 12);
    Ok(Header(ino, mode, nlink, filesize, devmajor, devminor, namesize, check))
  }

  /** What follows the header: name and NUL, then the data, where the check may fail. */
  function ParseBody(archive: seq<byte>, at: nat, crc: bool, h: Header): Result<(Record, nat)>
  {
    if h.namesize == 0 || h.namesize > MAX_NAME then Err(Corrupt)
    else
      var nameStart := at + NEWC_HEADER;
      var nameEnd := nameStart + h.namesize - 1;
      if nameEnd >= |archive| || archive[nameEnd] != 0 then Err(Corrupt)
      else
        var dataStart := Align4(nameStart + h.namesize);
        var dataEnd := dataStart + h.filesize;
        if dataEnd > |archive| then Err(Corrupt)
        else if crc && TypeBits(h.mode) == S_IFREG && ByteSum(archive[dataStart..dataEnd]) != h.check then Err(Corrupt)
        else
          Ok((Record(Extent(nameStart, nameEnd - nameStart), h.mode, InodeId(h.devmajor, h.devminor, h.ino), h.nlink,
                     Extent(dataStart, h.filesize)),
              Align4(dataEnd)))
  }

  /** The record at `at`, and where the next one starts. */
  function ParseRecord(archive: seq<byte>, at: nat, crc: bool): Result<(Record, nat)>
  {
    var h :- ParseHeader(archive, at);
    ParseBody(archive, at, crc, h)
  }

  /** A record's name and data lie inside the archive, and the next record comes later. */
  lemma {:induction false} RecordInBounds(archive: seq<byte>, at: nat, crc: bool)
    ensures var r := ParseRecord(archive, at, crc);
            r.Ok? ==> && r.value.0.name.off + r.value.0.name.len <= |archive|
                      && r.value.0.data.off + r.value.0.data.len <= |archive|
                      && r.value.1 >= at + NEWC_HEADER
  {
  }

  // ----- the printer -----

  /** The sum of the bytes. */
  function Total(data: seq<byte>): nat
  {
    if data == [] then 0 else data[0] as nat + Total(data[1..])
  }

  lemma {:induction false} TotalAppend(data: seq<byte>, b: byte)
    ensures Total(data + [b]) == Total(data) + b as nat
  {
    if data == [] {
      assert [b][1..] == [];
    } else {
      TotalAppend(data[1..], b);
      assert (data + [b])[1..] == data[1..] + [b];
    }
  }

  /** The check of a CRC archive is that sum in 32 bits. */
  lemma {:induction false} CheckIsTotal(data: seq<byte>)
    ensures ByteSum(data) == Total(data) % 0x1_0000_0000
  {
    if data != [] {
      var init, last := data[..|data| - 1], data[|data| - 1];
      CheckIsTotal(init);
      TotalAppend(init, last);
      assert data == init + [last];
    }
  }

  type Permissions = n: nat | n < 0x1000

  /** A type that is none of a directory's, a regular file's and a symlink's. */
  type Special = n: nat | n < 16 && n != 4 && n != 8 && n != 10

  /** What a record says, the fields the parser skips included: what the file is, with its
      permissions; `special` is the type of one that is no file, directory or symlink, and
      `high` the part of the mode above the type; `upper` the case of its digits. */
  datatype Entry = Entry(
    name: seq<byte>, kind: FileKind, permissions: Permissions, special: Special, high: nat, inode: InodeId, nlink: nat, data: seq<byte>, check: nat,
    upper: bool, uid: nat, gid: nat, mtime: nat, rdevmajor: nat, rdevminor: nat)
  {
    /** Every field fits its digits. */
    ghost predicate Fits()
    {
      && |name| < U32 - 1 && |data| < U32
      && high < 0x1_0000 && inode.ino < U32 && inode.devmajor < U32 && inode.devminor < U32 && nlink < U32 && check < U32
      && uid < U32 && gid < U32 && mtime < U32 && rdevmajor < U32 && rdevminor < U32
    }

    /** A name within bounds, and a CRC archive's check right where it is checked. */
    ghost predicate Acceptable(crc: bool)
    {
      |name| < 4096 && (crc && kind == Regular ==> check == Total(data) % 0x1_0000_0000)
    }

    ghost predicate Valid(crc: bool)
    {
      Fits() && Acceptable(crc)
    }

    /** The mode: permissions below the type. */
    function Mode(): nat
    {
      high * 0x1_0000 + permissions + match kind
                                      case Regular => 0x8000
                                      case Directory => 0x4000
                                      case Symlink => 0xA000
                                      case Other => special * 0x1000
    }

    function Fields(): (r: seq<nat>)
      ensures |r| == 13
    {
      [inode.ino, Mode(), uid, gid, nlink, mtime, |data|, inode.devmajor, inode.devminor, rdevmajor, rdevminor, |name| + 1, check]
    }

    function HeaderOf(): Header
    {
      Header.Header(inode.ino, Mode(), nlink, |data|, inode.devmajor, inode.devminor, |name| + 1, check)
    }

    /** The record, once it is at `at`. */
    function RecordAt(at: nat): Record
    {
      Record(Extent(at + NEWC_HEADER, |name|), Mode(), inode, nlink, Extent(at + DataOffset(), |data|))
    }

    function DataOffset(): nat
    {
      Align4(NEWC_HEADER + |name| + 1)
    }

    function Size(): nat
    {
      DataOffset() + Align4(|data|)
    }
  }

  function HexDigit(v: nat, upper: bool): byte
    requires v < 16
  {
    if v < 10 then 0x30 + v else if upper then 0x37 + v else 0x57 + v
  }

  function PrintHex(v: nat, n: nat, upper: bool): (r: seq<byte>)
    ensures |r| == n
    decreases n, v
  {
    if n == 0 then [] else PrintHex(v / 16, n - 1, upper) + [HexDigit(v % 16, upper)]
  }

  function PrintFields(fs: seq<nat>, upper: bool): (r: seq<byte>)
    ensures |r| == 8 * |fs|
  {
    if fs == [] then [] else PrintFields(fs[..|fs| - 1], upper) + PrintHex(fs[|fs| - 1], 8, upper)
  }

  /** "070702" of a CRC archive, "070701" of one without. */
  function MagicOf(crc: bool): (r: seq<byte>)
    ensures |r| == 6 && r[0] == 0x30
  {
    [0x30, 0x37, 0x30, 0x37, 0x30, if crc then 0x32 else 0x31]
  }

  /** A record as it stands at a 4-aligned offset: header, name and NUL, data, each padded. */
  function PrintRecord(e: Entry, crc: bool): (r: seq<byte>)
    ensures |r| == e.Size()
  {
    MagicOf(crc) + PrintFields(e.Fields(), e.upper) + e.name + [0]
    + Zeros(e.DataOffset() - (NEWC_HEADER + |e.name| + 1))
    + e.data + Zeros(Align4(|e.data|) - |e.data|)
  }

  // ----- parsing undoes printing -----

  lemma {:induction false} LiesFirst(archive: seq<byte>, at: nat, x: seq<byte>, y: seq<byte>, z: seq<byte>)
    requires Lies(archive, at, x + y + z)
    ensures Lies(archive, at, x) && Lies(archive, at + |x|, y + z)
  {
    assert x + y + z == x + (y + z);
    LiesParts(archive, at, x, y + z);
  }

  lemma {:induction false} PrintedHexFolds(v: nat, n: nat, upper: bool)
    requires v < Pow16(n)
    ensures HexFold(PrintHex(v, n, upper)) == Some(v)
  {
    if n > 0 {
      PrintedHexFolds(v / 16, n - 1, upper);
      assert PrintHex(v, n, upper)[..n - 1] == PrintHex(v / 16, n - 1, upper);
    }
  }

  function Pow16(n: nat): nat
  {
    if n == 0 then 1 else 16 * Pow16(n - 1)
  }

  /** Eight digits at `at` fold to `v`. */
  ghost predicate HoldsNumber(archive: seq<byte>, at: nat, v: nat)
  {
    at + 8 <= |archive| && HexFold(archive[at..at + 8]) == Some(v)
  }

  lemma {:induction false} NumberLies(archive: seq<byte>, at: nat, digits: seq<byte>, v: nat)
    requires |digits| == 8 && HexFold(digits) == Some(v) && Lies(archive, at, digits)
    ensures HoldsNumber(archive, at, v)
  {
  }

  lemma {:induction false} Printed8Folds(v: nat, upper: bool)
    requires v < U32
    ensures HexFold(PrintHex(v, 8, upper)) == Some(v)
  {
    assert Pow16(8) == U32;
    PrintedHexFolds(v, 8, upper);
  }

  lemma {:induction false} FieldLies(archive: seq<byte>, at: nat, fs: seq<nat>, upper: bool, i: nat)
    requires i < |fs| && Lies(archive, at, PrintFields(fs, upper)) && fs[i] < U32
    ensures HoldsNumber(archive, at + i * 8, fs[i])
    decreases |fs|
  {
    var init, last := fs[..|fs| - 1], fs[|fs| - 1];
    LiesParts(archive, at, PrintFields(init, upper), PrintHex(last, 8, upper));
    if i < |fs| - 1 {
      FieldLies(archive, at, init, upper, i);
    } else {
      Printed8Folds(last, upper);
      NumberLies(archive, at + i * 8, PrintHex(last, 8, upper), last);
    }
  }

  lemma {:induction false} NumberReads(archive: seq<byte>, at: nat, i: nat, start: nat, v: nat)
    requires start == at + 6 + i * 8 && HoldsNumber(archive, start, v)
    ensures HexField(archive, at, i) == Ok(v)
  {
  }

  lemma {:induction false} ModeSays(e: Entry)
    ensures e.Mode() % 0x1000 == e.permissions
    ensures TypeBits(e.Mode()) == match e.kind case Regular => 8 case Directory => 4 case Symlink => 10 case Other => e.special
  {
    var bits := match e.kind case Regular => 8 case Directory => 4 case Symlink => 10 case Other => e.special;
    assert e.Mode() == (e.high * 16 + bits) * 0x1000 + e.permissions;
    DivUnique(e.Mode(), 0x1000, e.high * 16 + bits);
  }

  lemma {:induction false} HeaderReads(archive: seq<byte>, at: nat, e: Entry)
    requires Lies(archive, at + 6, PrintFields(e.Fields(), e.upper)) && e.Fits()
    ensures ParseHeader(archive, at) == Ok(e.HeaderOf())
  {
    var f := e.Fields();
    forall i | 0 <= i < 13
      ensures HexField(archive, at, i) == Ok(f[i])
    {
      FieldLies(archive, at + 6, f, e.upper, i);
      NumberReads(archive, at, i, at + 6 + i * 8, f[i]);
    }
    assert HexField(archive, at, 0) == Ok(f[0]) && HexField(archive, at, 1) == Ok(f[1]) && HexField(archive, at, 4) == Ok(f[4]);
    assert HexField(archive, at, 6) == Ok(f[6]) && HexField(archive, at, 7) == Ok(f[7]) && HexField(archive, at, 8) == Ok(f[8]);
    assert HexField(archive, at, 11) == Ok(f[11]) && HexField(archive, at, 12) == Ok(f[12]);
  }

  lemma {:induction false} Align4Shifts(at: nat, n: nat)
    requires at % 4 == 0
    ensures Align4(at + n) == at + Align4(n) && Align4(n) % 4 == 0 && n <= Align4(n) < n + 4
  {
  }

  lemma {:induction false} RecordLies(archive: seq<byte>, at: nat, e: Entry, crc: bool)
    requires Lies(archive, at, PrintRecord(e, crc))
    ensures Lies(archive, at, MagicOf(crc))
    ensures Lies(archive, at + 6, PrintFields(e.Fields(), e.upper))
    ensures Lies(archive, at + NEWC_HEADER, e.name)
    ensures Lies(archive, at + NEWC_HEADER + |e.name|, [0])
    ensures Lies(archive, at + e.DataOffset(), e.data)
  {
    var magic, fields, nul := MagicOf(crc), PrintFields(e.Fields(), e.upper), [0];
    var pad1, pad2 := Zeros(e.DataOffset() - (NEWC_HEADER + |e.name| + 1)), Zeros(Align4(|e.data|) - |e.data|);
    LiesParts(archive, at, magic + fields + e.name + nul + pad1 + e.data, pad2);
    LiesParts(archive, at, magic + fields + e.name + nul + pad1, e.data);
    LiesParts(archive, at, magic + fields + e.name + nul, pad1);
    LiesParts(archive, at, magic + fields + e.name, nul);
    LiesParts(archive, at, magic + fields, e.name);
    LiesParts(archive, at, magic, fields);
  }

  lemma {:induction false} BodyParses(archive: seq<byte>, at: nat, e: Entry, crc: bool, dataAt: nat)
    requires at % 4 == 0 && e.Fits()
    requires dataAt == at + e.DataOffset() == Align4(at + NEWC_HEADER + |e.name| + 1)
    requires Align4(dataAt + |e.data|) == dataAt + Align4(|e.data|)
    requires at + NEWC_HEADER + |e.name| < |archive| && archive[at + NEWC_HEADER + |e.name|] == 0
    requires Lies(archive, dataAt, e.data) && ByteSum(e.data) == Total(e.data) % 0x1_0000_0000
    requires TypeBits(e.Mode()) == 8 <==> e.kind == Regular
    ensures ParseBody(archive, at, crc, e.HeaderOf()) == if e.Acceptable(crc) then Ok((e.RecordAt(at), at + e.Size())) else Err(Corrupt)
  {
  }

  lemma {:induction false} Offsets(at: nat, e: Entry)
    requires at % 4 == 0
    ensures at + e.DataOffset() == Align4(at + NEWC_HEADER + |e.name| + 1)
    ensures Align4(at + e.DataOffset() + |e.data|) == at + e.DataOffset() + Align4(|e.data|)
    ensures e.Size() % 4 == 0
  {
    Align4Shifts(at, NEWC_HEADER + |e.name| + 1);
    Align4Shifts(at + e.DataOffset(), |e.data|);
  }

  lemma {:induction false} ByteLies(archive: seq<byte>, at: nat, b: byte)
    requires Lies(archive, at, [b])
    ensures at < |archive| && archive[at] == b
  {
    assert archive[at] == archive[at..at + 1][0];
  }

  lemma {:induction false} BodyReads(archive: seq<byte>, at: nat, e: Entry, crc: bool)
    requires at % 4 == 0 && e.Fits()
    requires Lies(archive, at + NEWC_HEADER + |e.name|, [0]) && Lies(archive, at + e.DataOffset(), e.data)
    ensures ParseBody(archive, at, crc, e.HeaderOf()) == if e.Acceptable(crc) then Ok((e.RecordAt(at), at + e.Size())) else Err(Corrupt)
    ensures e.Size() % 4 == 0
  {
    ByteLies(archive, at + NEWC_HEADER + |e.name|, 0);
    Offsets(at, e);
    ModeSays(e);
    CheckIsTotal(e.data);
    BodyParses(archive, at, e, crc, at + e.DataOffset());
  }

  /** A printed record is accepted if and only if its name is not too long and its check, where
      it is checked, is the sum of its bytes; then it parses to itself, and to the offset after
      it. */
  lemma {:induction false} ParsesIffAcceptable(archive: seq<byte>, at: nat, e: Entry, crc: bool)
    requires at % 4 == 0 && e.Fits() && Lies(archive, at, PrintRecord(e, crc))
    ensures ParseRecord(archive, at, crc) == if e.Acceptable(crc) then Ok((e.RecordAt(at), at + e.Size())) else Err(Corrupt)
    ensures e.Size() % 4 == 0
  {
    RecordLies(archive, at, e, crc);
    HeaderReads(archive, at, e);
    BodyReads(archive, at, e, crc);
  }

  /** A printed record parses to itself, and to the offset after it. */
  lemma {:induction false} ParseUndoesPrint(archive: seq<byte>, at: nat, e: Entry, crc: bool)
    requires at % 4 == 0 && e.Valid(crc) && Lies(archive, at, PrintRecord(e, crc))
    ensures ParseRecord(archive, at, crc) == Ok((e.RecordAt(at), at + e.Size()))
    ensures Lies(archive, at, MagicOf(crc)) && e.Size() % 4 == 0
  {
    ParsesIffAcceptable(archive, at, e, crc);
    RecordLies(archive, at, e, crc);
  }
}
