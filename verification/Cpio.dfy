/** The CPIO newc writer behind the ignition initrd (`writeCPIOEntry` and
    `buildInitrd` in internal/releases/iso.go), and a newc reader to hold it
    against: an archive is a sequence of entries, each a 110-byte header of
    hexadecimal fields, a NUL-terminated name and the data, both padded so that
    what follows starts at a multiple of four. */
module Cpio {
  import opened Digests
  import opened Numbers
  import opened Seqs

  const NUL: Byte := 0
  const ZERO_DIGIT: Byte := 48

  /* ---- hexadecimal fields ---- */

  function HexChar(d: nat): Byte
    requires d < 16
  {
    if d < 10 then (48 + d) as Byte else (55 + d) as Byte
  }

  function HexDigits(n: nat): (r: Bytes)
    ensures |r| >= 1
  {
    if n < 16 then [HexChar(n)] else HexDigits(n / 16) + [HexChar(n % 16)]
  }

  /** Digits and upper-case letters. */
  lemma {:induction false} UpperCase(n: nat)
    ensures forall i :: 0 <= i < |HexDigits(n)| ==>
      '0' <= HexDigits(n)[i] as char <= '9' || 'A' <= HexDigits(n)[i] as char <= 'F'
  {
    if n >= 16 {
      UpperCase(n / 16);
    }
  }

  /** `%08X`: at least eight digits. */
  function Field(n: nat): Bytes {
    Repeat(ZERO_DIGIT, 8 - |HexDigits(n)|) + HexDigits(n)
  }

  function Unhex(s: Bytes): Option<nat> {
    if s == [] then Some(0)
    else match (Unhex(s[..|s|-1]), HexValue(s[|s|-1]))
      case (Some(a), Some(b)) => Some(16 * a + b as nat)
      case _ => None
  }

  function Pow16(k: nat): nat {
    if k == 0 then 1 else 16 * Pow16(k - 1)
  }

  lemma {:induction false} HexLength(n: nat, k: nat)
    requires k >= 1
    ensures |HexDigits(n)| <= k <==> n < Pow16(k)
  {
    if n >= 16 {
      if k > 1 {
        HexLength(n / 16, k - 1);
      } else {
        assert Pow16(1) == 16;
      }
    } else {
      assert 16 <= Pow16(k) by { PowAtLeast(k); }
    }
  }

  lemma {:induction false} PowAtLeast(k: nat)
    requires k >= 1
    ensures Pow16(k) >= 16
  {
    if k > 1 {
      PowAtLeast(k - 1);
    }
  }

  lemma {:induction false} UnhexHex(n: nat)
    ensures Unhex(HexDigits(n)) == Some(n)
  {
    if n < 16 {
      assert HexDigits(n)[..0] == [];
    } else {
      UnhexHex(n / 16);
      assert HexDigits(n)[..|HexDigits(n)|-1] == HexDigits(n / 16);
    }
  }

  lemma {:induction false} UnhexZeros(k: nat, s: Bytes)
    requires Unhex(s).Some?
    ensures Unhex(Repeat(ZERO_DIGIT, k) + s) == Unhex(s)
  {
    var all := Repeat(ZERO_DIGIT, k) + s;
    if s == [] {
      assert all == Repeat(ZERO_DIGIT, k);
      if k > 0 {
        assert Repeat(ZERO_DIGIT, k)[..k-1] == Repeat(ZERO_DIGIT, k - 1);
        UnhexZeros(k - 1, []);
        assert Repeat(ZERO_DIGIT, k - 1) + [] == Repeat(ZERO_DIGIT, k - 1);
      }
    } else {
      assert all[..|all|-1] == Repeat(ZERO_DIGIT, k) + s[..|s|-1];
      UnhexZeros(k, s[..|s|-1]);
    }
  }

  /** Eight digits, and back to the number, exactly below 2^32. */
  lemma FieldRoundTrip(n: nat)
    ensures Unhex(Field(n)) == Some(n)
    ensures |Field(n)| == 8 <==> n < 0x1_0000_0000
  {
    UnhexHex(n);
    var k := 8 - |HexDigits(n)|;
    if k <= 0 {
      assert Field(n) == HexDigits(n);
    } else {
      UnhexZeros(k, HexDigits(n));
    }
    HexLength(n, 8);
    assert Pow16(8) == 0x1_0000_0000 by {
      assert Pow16(2) == 256 && Pow16(4) == 65536 && Pow16(6) == 16777216;
    }
  }

  /* ---- the writer ---- */

  function Ascii(s: string): Bytes {
    if s == "" then [] else Ascii(s[..|s|-1]) + [(s[|s|-1] as int % 256) as Byte]
  }

  function Pad(n: nat): (p: nat)
    ensures p < 4 && (n + p) % 4 == 0
  {
    (4 - n % 4) % 4
  }

  const MAGIC: Bytes := [48, 55, 48, 55, 48, 49]  // "070701"

  function Header(nameSize: nat, fileSize: nat): Bytes {
    MAGIC + Field(0) + Field(0x81A4) + Field(0) + Field(0) + Field(1) + Field(0) + Field(fileSize)
    + Field(0) + Field(0) + Field(0) + Field(0) + Field(nameSize) + Field(0)
  }

  /** The name, its NUL, and padding counted from the start of the header. */
  function NameField(name: Bytes): Bytes {
    name + ([NUL] + Repeat(NUL, Pad(110 + |name| + 1)))
  }

  function DataField(data: Bytes): Bytes {
    data + if data == [] then [] else Repeat(NUL, Pad(|data|))
  }

  function Entry(name: Bytes, data: Bytes): Bytes {
    Header(|name| + 1, |data|) + (NameField(name) + DataField(data))
  }

  class Writer {
    var written: Bytes

    constructor ()
      ensures written == []
    { written := []; }

    method Write(b: Bytes)
      modifies this
      ensures written == old(written) + b
    { written := written + b; }
  }

  method WriteCPIOEntry(w: Writer, name: Bytes, data: Bytes)
    modifies w
    ensures w.written == old(w.written) + Entry(name, data)
  {
    var nameWithNull := name + [NUL];
    var headerSize := 110 + |nameWithNull|;
    var namePad := (4 - headerSize % 4) % 4;
    var dataPad := (4 - |data| % 4) % 4;
    w.Write(Header(|nameWithNull|, |data|));
    w.Write(nameWithNull);
    w.Write(Repeat(NUL, namePad));
    HeadWritten(old(w.written), name, |data|);
    hide Header, NameField, Repeat, Pad;
    ghost var head := w.written;
    assert head == old(w.written) + Header(|name| + 1, |data|) + NameField(name);
    if |data| > 0 {
      w.Write(data);
      if dataPad > 0 {
        w.Write(Repeat(NUL, dataPad));
      }
    }
    assert w.written == head + DataField(data);
    hide DataField;
    Joined(old(w.written), Header(|name| + 1, |data|), NameField(name), DataField(data));
  }

  lemma HeadWritten(before: Bytes, name: Bytes, size: nat)
    ensures var header, padding := Header(|name| + 1, size), Repeat(NUL, Pad(110 + |name| + 1));
      before + header + (name + [NUL]) + padding == before + header + NameField(name)
  {
    hide Header;
    assert name + [NUL] + Repeat(NUL, Pad(110 + |name| + 1)) == NameField(name);
  }

  lemma Joined(a: Bytes, b: Bytes, c: Bytes, d: Bytes)
    ensures a + b + c + d == a + (b + (c + d))
  {
  }

  function ConfigName(): Bytes {
    Ascii("config.ign")
  }

  function Trailer(): Bytes {
    Ascii("TRAILER!!!")
  }

  function Archive(ignition: Bytes): Bytes {
    Entry(ConfigName(), ignition) + Entry(Trailer(), [])
  }

  /* ---- a reader ---- */

  datatype File = File(name: Bytes, data: Bytes)

  /** The entry at the front, and what follows it. */
  function ReadEntry(s: Bytes): Option<(File, Bytes)> {
    if |s| < 110 || s[..6] != MAGIC then None
    else match (Unhex(s[54..62]), Unhex(s[94..102]))
      case (Some(fileSize), Some(nameSize)) => ReadBody(s[110..], nameSize, fileSize)
      case _ => None
  }

  function ReadBody(s: Bytes, nameSize: nat, fileSize: nat): Option<(File, Bytes)> {
    var nameRoom, dataRoom := nameSize + Pad(110 + nameSize), fileSize + Pad(fileSize);
    if nameSize == 0 || |s| < nameRoom || s[nameSize - 1] != NUL then None
    else
      var rest := s[nameRoom..];
      if |rest| < dataRoom then None
      else Some((File(s[..nameSize - 1], rest[..fileSize]), rest[dataRoom..]))
  }

  /** All files up to the trailer. */
  function ReadArchive(s: Bytes): Option<seq<File>>
    decreases |s|
  {
    match ReadEntry(s)
    case None => None
    case Some((f, rest)) =>
      if f.name == Trailer() then Some([])
      else if |rest| >= |s| then None
      else match ReadArchive(rest) case None => None case Some(fs) => Some([f] + fs)
  }

  lemma HeaderShape(nameSize: nat, fileSize: nat)
    requires nameSize < 0x1_0000_0000 && fileSize < 0x1_0000_0000
    ensures var h := Header(nameSize, fileSize);
      && |h| == 110 && h[..6] == MAGIC
      && h[54..62] == Field(fileSize) && h[94..102] == Field(nameSize)
  {
    FieldRoundTrip(0);
    FieldRoundTrip(1);
    FieldRoundTrip(0x81A4);
    FieldRoundTrip(fileSize);
    FieldRoundTrip(nameSize);
  }

  /** Field `i` of a newc header, after the six bytes of the magic number. */
  function FieldAt(h: Bytes, i: nat): Option<nat>
    requires i < 13 && |h| >= 110
  {
    Unhex(h[6 + 8 * i..14 + 8 * i])
  }

  /** A regular file (octal 100644) with one link, everything else zero: inode,
      owner, group, time, devices and check sum. */
  lemma HeaderFields(nameSize: nat, fileSize: nat)
    requires nameSize < 0x1_0000_0000 && fileSize < 0x1_0000_0000
    ensures var h := Header(nameSize, fileSize);
      && |h| == 110 && (forall i :: 0 <= i < 6 ==> h[i] as char == "070701"[i])
      && FieldAt(h, 1) == Some(8 * 8 * 8 * 8 * 8 + 6 * 64 + 4 * 8 + 4) && FieldAt(h, 4) == Some(1)
      && FieldAt(h, 6) == Some(fileSize) && FieldAt(h, 11) == Some(nameSize)
      && forall i :: i in {0, 2, 3, 5, 7, 8, 9, 10, 12} ==> FieldAt(h, i) == Some(0)
  {
    FieldRoundTrip(0);
    FieldRoundTrip(1);
    FieldRoundTrip(0x81A4);
    FieldRoundTrip(fileSize);
    FieldRoundTrip(nameSize);
    HeaderSlices(Field(0), Field(0x81A4), Field(1), Field(fileSize), Field(nameSize));
    hide Field, Unhex;
  }

  lemma HeaderSlices(z: Bytes, mode: Bytes, one: Bytes, file: Bytes, name: Bytes)
    requires |z| == |mode| == |one| == |file| == |name| == 8
    ensures var h := MAGIC + z + mode + z + z + one + z + file + z + z + z + z + name + z;
      && |h| == 110 && h[..6] == MAGIC && h[6..14] == z && h[14..22] == mode && h[22..30] == z && h[30..38] == z
      && h[38..46] == one && h[46..54] == z && h[54..62] == file && h[62..70] == z && h[70..78] == z
      && h[78..86] == z && h[86..94] == z && h[94..102] == name && h[102..110] == z
  {
  }

  lemma Split(a: Bytes, b: Bytes)
    ensures (a + b)[..|a|] == a && (a + b)[|a|..] == b
  {
  }

  lemma Within(a: Bytes, b: Bytes, i: nat, j: nat)
    requires i <= j <= |a|
    ensures (a + b)[i..j] == a[i..j]
  {
  }

  /** Every entry leaves the archive at a multiple of four. */
  lemma EntryAligned(name: Bytes, data: Bytes)
    requires |name| + 1 < 0x1_0000_0000 && |data| < 0x1_0000_0000
    ensures |Entry(name, data)| % 4 == 0
  {
    HeaderShape(|name| + 1, |data|);
    FieldsAligned(name, data);
    SumAligned(110 + |NameField(name)|, |DataField(data)|);
    hide Header, NameField, DataField;
  }

  lemma SumAligned(a: nat, b: nat)
    requires a % 4 == 0 && b % 4 == 0
    ensures (a + b) % 4 == 0
  {
  }

  lemma FieldsAligned(name: Bytes, data: Bytes)
    ensures (110 + |NameField(name)|) % 4 == 0 && |DataField(data)| % 4 == 0
    ensures |NameField(name)| == |name| + 1 + Pad(110 + |name| + 1)
    ensures |DataField(data)| == |data| + Pad(|data|)
  {
  }

  lemma NameFieldSplit(name: Bytes, tail: Bytes)
    ensures (NameField(name) + tail)[..|name|] == name && (NameField(name) + tail)[|name|] == NUL
    ensures (NameField(name) + tail)[|NameField(name)|..] == tail
  {
    var padding := [NUL] + Repeat(NUL, Pad(110 + |name| + 1));
    Assoc(name, padding, tail);
    Split(name, padding + tail);
    Split(NameField(name), tail);
  }

  lemma DataFieldSplit(data: Bytes, tail: Bytes)
    ensures (DataField(data) + tail)[..|data|] == data
    ensures (DataField(data) + tail)[|DataField(data)|..] == tail
  {
    var padding := if data == [] then [] else Repeat(NUL, Pad(|data|));
    Assoc(data, padding, tail);
    Split(data, padding + tail);
    Split(DataField(data), tail);
  }

  lemma BodyRoundTrip(name: Bytes, data: Bytes, tail: Bytes)
    ensures ReadBody(NameField(name) + (DataField(data) + tail), |name| + 1, |data|) == Some((File(name, data), tail))
  {
    FieldsAligned(name, data);
    NameFieldSplit(name, DataField(data) + tail);
    DataFieldSplit(data, tail);
    hide NameField, DataField;
  }

  /** The reader finds in the writer's output what was written, and then what
      follows. */
  lemma EntryRoundTrip(name: Bytes, data: Bytes, tail: Bytes)
    requires |name| + 1 < 0x1_0000_0000 && |data| < 0x1_0000_0000
    ensures ReadEntry(Entry(name, data) + tail) == Some((File(name, data), tail))
  {
    var h, body := Header(|name| + 1, |data|), NameField(name) + (DataField(data) + tail);
    HeaderShape(|name| + 1, |data|);
    FieldRoundTrip(|data|);
    FieldRoundTrip(|name| + 1);
    Assoc(h, NameField(name) + DataField(data), tail);
    Assoc(NameField(name), DataField(data), tail);
    Split(h, body);
    Within(h, body, 0, 6);
    Within(h, body, 54, 62);
    Within(h, body, 94, 102);
    BodyRoundTrip(name, data, tail);
    hide Header, NameField, DataField, Field, ReadBody, Unhex;
    assert Entry(name, data) + tail == h + body;
  }

  lemma {:induction false} AsciiIs(s: string)
    ensures |Ascii(s)| == |s|
    ensures forall i :: 0 <= i < |s| ==> Ascii(s)[i] as int == s[i] as int % 256
  {
    if s != "" {
      AsciiIs(s[..|s|-1]);
    }
  }

  lemma EntryNames()
    ensures |ConfigName()| == 10 && forall i :: 0 <= i < 10 ==> ConfigName()[i] as char == "config.ign"[i]
    ensures |Trailer()| == 10 && forall i :: 0 <= i < 10 ==> Trailer()[i] as char == "TRAILER!!!"[i]
  {
    AsciiIs("config.ign");
    AsciiIs("TRAILER!!!");
  }

  lemma Names()
    ensures ConfigName() != Trailer() && |ConfigName()| == 10 && |Trailer()| == 10
  {
    AsciiIs("config.ign");
    AsciiIs("TRAILER!!!");
    assert ConfigName()[0] == 99 && Trailer()[0] == 84;
  }

  lemma ReadNext(s: Bytes, f: File, rest: Bytes)
    requires ReadEntry(s) == Some((f, rest)) && |rest| < |s|
    ensures f.name == Trailer() ==> ReadArchive(s) == Some([])
    ensures f.name != Trailer() && ReadArchive(rest) == Some([]) ==> ReadArchive(s) == Some([f])
  {
    assert [f] + [] == [f];
    hide ReadEntry, Trailer;
  }

  lemma ArchiveAligned(ignition: Bytes)
    requires |ignition| < 0x1_0000_0000
    ensures |Archive(ignition)| % 4 == 0 && |Entry(ConfigName(), ignition)| > 0
  {
    Names();
    EntryAligned(ConfigName(), ignition);
    EntryAligned(Trailer(), []);
    SumAligned(|Entry(ConfigName(), ignition)|, |Entry(Trailer(), [])|);
    HeaderShape(|ConfigName()| + 1, |ignition|);
    hide ConfigName, Trailer, Header, NameField, DataField;
  }

  /** The initrd, unpacked, is one file `config.ign` with the given content. */
  lemma ArchiveRoundTrip(ignition: Bytes)
    requires |ignition| < 0x1_0000_0000
    ensures ReadArchive(Archive(ignition)) == Some([File(ConfigName(), ignition)])
  {
    hide ReadEntry, ReadArchive, ConfigName, Trailer, Entry;
    Names();
    ArchiveAligned(ignition);
    EntryRoundTrip(ConfigName(), ignition, Entry(Trailer(), []));
    EntryRoundTrip(Trailer(), [], []);
    assert Entry(Trailer(), []) + [] == Entry(Trailer(), []);
    TrailerNotEmpty();
    ReadNext(Entry(Trailer(), []), File(Trailer(), []), []);
    ReadNext(Archive(ignition), File(ConfigName(), ignition), Entry(Trailer(), []));
  }

  lemma TrailerNotEmpty()
    ensures |Entry(Trailer(), [])| > 0
  {
    Names();
    HeaderShape(|Trailer()| + 1, 0);
    hide Trailer, Header, NameField, DataField;
  }

  /** `buildInitrd` with a compressor that can be undone. */
  lemma InitrdRoundTrip(gzip: Bytes -> Bytes, gunzip: Bytes -> Bytes, ignition: Bytes)
    requires |ignition| < 0x1_0000_0000 && gunzip(gzip(Archive(ignition))) == Archive(ignition)
    ensures ReadArchive(gunzip(gzip(Archive(ignition)))) == Some([File(ConfigName(), ignition)])
  {
    ArchiveRoundTrip(ignition);
  }
}
