/** Finding and patching `/images/ignition.img` in an ISO 9660 file
    (internal/releases/iso.go).  The directory walk is held against directories
    as ECMA-119 lays them out: sections 6.8.1 and 9.1. */
module Iso {
  import opened Digests
  import opened Numbers
  import opened Seqs
  import Uploads

  const SECTOR: nat := 2048

  /* ---- numbers in both byte orders (section 7.3.3 of ECMA-119) ---- */

  function Little(v: UInt32): (r: Bytes)
    ensures |r| == 4
  {
    [(v % 256) as Byte, (v / 256 % 256) as Byte, (v / 65536 % 256) as Byte, (v / 16777216) as Byte]
  }

  function Big(v: UInt32): (r: Bytes)
    ensures |r| == 4
  {
    [(v / 16777216) as Byte, (v / 65536 % 256) as Byte, (v / 256 % 256) as Byte, (v % 256) as Byte]
  }

  function ReadLittle(s: Bytes, at: nat): (v: UInt32)
    requires at + 4 <= |s|
  {
    s[at] as nat + 256 * s[at+1] as nat + 65536 * s[at+2] as nat + 16777216 * s[at+3] as nat
  }

  lemma Digits(v: UInt32)
    ensures v % 256 + 256 * (v / 256 % 256) + 65536 * (v / 65536 % 256) + 16777216 * (v / 16777216) == v
  {
    var a := v / 256;
    var b := a / 256;
    assert v / 65536 == b && v / 16777216 == b / 256;
  }

  lemma LittleRoundTrip(v: UInt32, s: Bytes, at: nat)
    requires at + 4 <= |s| && s[at..at+4] == Little(v)
    ensures ReadLittle(s, at) == v
  {
    Digits(v);
    assert s[at] == s[at..at+4][0] && s[at+1] == s[at..at+4][1];
    assert s[at+2] == s[at..at+4][2] && s[at+3] == s[at..at+4][3];
  }

  /* ---- names ---- */

  /** `strings.TrimSuffix(name, ";1")` */
  function TrimVersion(name: Bytes): Bytes {
    if |name| >= 2 && name[|name|-2..] == [59, 49] then name[..|name|-2] else name
  }

  /** ";1" goes, once, and nothing else does. */
  lemma TrimVersionIs(name: Bytes)
    ensures TrimVersion(name + [';' as int as Byte, '1' as int as Byte]) == name
    ensures TrimVersion(name) == name || name == TrimVersion(name) + [';' as int as Byte, '1' as int as Byte]
  {
    var v := name + [59, 49];
    assert v[|v|-2..] == [59, 49] && v[..|v|-2] == name;
  }

  /** About `strings.EqualFold` nothing is assumed. */
  type Fold = (Bytes, Bytes) -> bool

  predicate Matches(fold: Fold, entry: Bytes, name: Bytes) {
    fold(TrimVersion(entry), name)
  }

  /* ---- the walk ---- */

  function NextSector(pos: nat): (r: nat)
    ensures r > pos && r % SECTOR == 0
  {
    (pos / SECTOR + 1) * SECTOR
  }

  datatype Extent = Extent(extent: UInt32, size: UInt32)

  function Walk(fold: Fold, dir: Bytes, pos: nat, name: Bytes): Option<Extent>
    decreases |dir| - pos
  {
    if pos >= |dir| then None
    else if dir[pos] == 0 then
      if NextSector(pos) >= |dir| then None else Walk(fold, dir, NextSector(pos), name)
    else if pos + 33 >= |dir| then None
    else
      var nameLen := dir[pos+32] as nat;
      if pos + 33 + nameLen > |dir| then None
      else if Matches(fold, dir[pos+33..pos+33+nameLen], name) then
        Some(Extent(ReadLittle(dir, pos + 2), ReadLittle(dir, pos + 10)))
      else Walk(fold, dir, pos + dir[pos] as nat, name)
  }

  datatype Found = Entry(e: Extent) | Missing | ReadError

  /** `ReadAt` of a whole range: an error unless all of it is there. */
  function ReadAt(file: Bytes, at: nat, n: nat): Option<Bytes> {
    if n == 0 then Some([]) else if at + n <= |file| then Some(file[at..at+n]) else None
  }

  function FindIn(fold: Fold, file: Bytes, dirExtent: nat, dirSize: nat, name: Bytes): Found {
    match ReadAt(file, dirExtent * SECTOR, dirSize)
    case None => ReadError
    case Some(dir) => match Walk(fold, dir, 0, name) case None => Missing case Some(e) => Entry(e)
  }

  /** What cannot be read is a directory that reaches beyond the end of the image. */
  lemma ReadErrorExactly(fold: Fold, file: Bytes, dirExtent: nat, dirSize: nat, name: Bytes)
    ensures FindIn(fold, file, dirExtent, dirSize, name) == ReadError <==> dirSize > 0 && dirExtent * 2048 + dirSize > |file|
  {
  }

  /** In bounds at every access, and closer to the end in every round. */
  method FindDirEntry(fold: Fold, file: Bytes, dirExtent: nat, dirSize: nat, name: Bytes) returns (r: Found)
    ensures r == FindIn(fold, file, dirExtent, dirSize, name)
  {
    hide ReadLittle, TrimVersion, NextSector, ReadAt;
    var read := ReadAt(file, dirExtent * SECTOR, dirSize);
    if read.None? {
      return ReadError;
    }
    var dir := read.value;
    var pos := 0;
    while pos < |dir|
      invariant Walk(fold, dir, 0, name) == Walk(fold, dir, pos, name)
      decreases |dir| - pos
    {
      var recLen := dir[pos] as nat;
      if recLen == 0 {
        var nextSector := NextSector(pos);
        if nextSector >= |dir| {
          break;
        }
        pos := nextSector;
        continue;
      }
      if pos + 33 >= |dir| {
        break;
      }
      var nameLen := dir[pos+32] as nat;
      if pos + 33 + nameLen > |dir| {
        break;
      }
      var entryName := TrimVersion(dir[pos+33..pos+33+nameLen]);
      if fold(entryName, name) {
        return Entry(Extent(ReadLittle(dir, pos + 2), ReadLittle(dir, pos + 10)));
      }
      pos := pos + recLen;
    }
    return Missing;
  }

  /* ---- directories as the standard lays them out ---- */

  /** A directory record (section 9.1): `middle` is the date, flags, unit size,
      gap and volume number; a name of even length is followed by a padding
      byte; `system` is the system use area. */
  datatype Record = Record(attributes: Byte, extent: UInt32, size: UInt32, middle: Bytes, name: Bytes, system: Bytes) {
    function Length(): nat {
      33 + |name| + (if |name| % 2 == 0 then 1 else 0) + |system|
    }

    predicate Valid() {
      |middle| == 14 && |name| >= 1 && Length() < 256
    }

    function Fixed(): (r: Bytes)
      requires Valid()
      ensures |r| == 33
    {
      [Length() as Byte, attributes] + Little(extent) + Big(extent) + Little(size) + Big(size) + middle + [|name| as Byte]
    }

    function Encode(): (r: Bytes)
      requires Valid()
      ensures |r| == Length()
    {
      Fixed() + (name + ((if |name| % 2 == 0 then [0] else []) + system))
    }
  }

  /** The records of one sector, one after the other. */
  function Packed(rs: seq<Record>): Bytes
    requires forall i :: 0 <= i < |rs| ==> rs[i].Valid()
  {
    if rs == [] then [] else rs[0].Encode() + Packed(rs[1..])
  }

  /** No record crosses a sector boundary (section 6.8.1.1). */
  predicate FitsSector(rs: seq<Record>) {
    (forall i :: 0 <= i < |rs| ==> rs[i].Valid()) && |Packed(rs)| <= SECTOR
  }

  /** Unused bytes after the last record of a sector are zero. */
  function SectorOf(rs: seq<Record>): (r: Bytes)
    requires FitsSector(rs)
    ensures |r| == SECTOR
  {
    Packed(rs) + Repeat(0, SECTOR - |Packed(rs)|)
  }

  function Directory(sectors: seq<seq<Record>>): (r: Bytes)
    requires forall i :: 0 <= i < |sectors| ==> FitsSector(sectors[i])
    ensures |r| == |sectors| * SECTOR
  {
    if sectors == [] then [] else SectorOf(sectors[0]) + Directory(sectors[1..])
  }

  /** The first record with the name, in a sector and in a directory. */
  function First(fold: Fold, rs: seq<Record>, name: Bytes): Option<Extent> {
    if rs == [] then None
    else if Matches(fold, rs[0].name, name) then Some(Extent(rs[0].extent, rs[0].size))
    else First(fold, rs[1..], name)
  }

  function FirstOf(fold: Fold, sectors: seq<seq<Record>>, name: Bytes): Option<Extent> {
    if sectors == [] then None
    else match First(fold, sectors[0], name)
      case Some(e) => Some(e)
      case None => FirstOf(fold, sectors[1..], name)
  }

  lemma FixedFields(r: Record)
    requires r.Valid()
    ensures var f := r.Fixed();
      f[0] as nat == r.Length() && f[2..6] == Little(r.extent) && f[10..14] == Little(r.size) && f[32] as nat == |r.name|
  {
  }

  lemma Slice(front: Bytes, a: Bytes, back: Bytes, i: nat, j: nat)
    requires i <= j <= |a|
    ensures (front + a + back)[|front| + i..|front| + j] == a[i..j]
  {
  }

  /** What the walk reads where a record stands. */
  lemma AtRecord(front: Bytes, r: Record, back: Bytes)
    requires r.Valid()
    ensures var dir, pos := front + r.Encode() + back, |front|;
      && dir[pos] as nat == r.Length() > 33 && dir[pos+32] as nat == |r.name|
      && pos + 33 + |r.name| <= |dir|
      && dir[pos+33..pos+33+|r.name|] == r.name
      && ReadLittle(dir, pos + 2) == r.extent && ReadLittle(dir, pos + 10) == r.size
  {
    var e := r.Encode();
    var dir := front + e + back;
    FixedFields(r);
    assert e[..33] == r.Fixed() && e[33..33+|r.name|] == r.name;
    assert e[2..6] == r.Fixed()[2..6] && e[10..14] == r.Fixed()[10..14];
    assert dir[|front|] == e[0] && dir[|front|+32] == e[32];
    Slice(front, e, back, 33, 33 + |r.name|);
    Slice(front, e, back, 2, 6);
    Slice(front, e, back, 10, 14);
    LittleRoundTrip(r.extent, dir, |front| + 2);
    LittleRoundTrip(r.size, dir, |front| + 10);
  }

  lemma WalkRecord(fold: Fold, front: Bytes, r: Record, back: Bytes, name: Bytes)
    requires r.Valid()
    ensures Walk(fold, front + r.Encode() + back, |front|, name) ==
      if Matches(fold, r.name, name) then Some(Extent(r.extent, r.size))
      else Walk(fold, front + r.Encode() + back, |front + r.Encode()|, name)
  {
    AtRecord(front, r, back);
  }

  lemma NextIs(pos: nat, q: nat)
    requires q * SECTOR <= pos < q * SECTOR + SECTOR
    ensures NextSector(pos) == q * SECTOR + SECTOR
  {
    assert pos / SECTOR == q;
  }

  /** The zeros after the last record of a sector. */
  lemma WalkGap(fold: Fold, front: Bytes, gap: Bytes, back: Bytes, q: nat, name: Bytes)
    requires q * SECTOR <= |front| && |front| + |gap| == q * SECTOR + SECTOR
    requires forall i :: 0 <= i < |gap| ==> gap[i] == 0
    ensures Walk(fold, front + gap + back, |front|, name) == Walk(fold, front + gap + back, q * SECTOR + SECTOR, name)
  {
    if gap != [] {
      assert (front + gap + back)[|front|] == gap[0];
      NextIs(|front|, q);
    }
  }

  /** The walk over what is left of one sector: records, then zeros. */
  lemma {:induction false} WalkSector(fold: Fold, front: Bytes, rs: seq<Record>, gap: Bytes, back: Bytes, q: nat, name: Bytes)
    requires forall i :: 0 <= i < |rs| ==> rs[i].Valid()
    requires q * SECTOR <= |front| && |front| + |Packed(rs)| + |gap| == q * SECTOR + SECTOR
    requires forall i :: 0 <= i < |gap| ==> gap[i] == 0
    ensures Walk(fold, front + Packed(rs) + gap + back, |front|, name) ==
      match First(fold, rs, name)
      case Some(e) => Some(e)
      case None => Walk(fold, front + Packed(rs) + gap + back, q * SECTOR + SECTOR, name)
    decreases |rs|
  {
    if rs == [] {
      assert front + Packed(rs) == front;
      WalkGap(fold, front, gap, back, q, name);
    } else {
      var e, packed := rs[0].Encode(), Packed(rs[1..]);
      assert Packed(rs) == e + packed;
      Regroup(front, e, packed, gap, back);
      WalkRecord(fold, front, rs[0], packed + gap + back, name);
      WalkSector(fold, front + e, rs[1..], gap, back, q, name);
      hide Walk, Packed;
    }
  }

  lemma Regroup(a: Bytes, b: Bytes, c: Bytes, d: Bytes, e: Bytes)
    ensures a + (b + c) + d + e == a + b + (c + d + e)
    ensures a + (b + c) + d + e == (a + b) + c + d + e
  {
  }

  lemma {:induction false} WalkSectors(fold: Fold, front: Bytes, sectors: seq<seq<Record>>, q: nat, name: Bytes)
    requires forall i :: 0 <= i < |sectors| ==> FitsSector(sectors[i])
    requires |front| == q * SECTOR
    ensures Walk(fold, front + Directory(sectors), |front|, name) == FirstOf(fold, sectors, name)
    decreases |sectors|
  {
    if sectors != [] {
      var packed := Packed(sectors[0]);
      var gap, rest := Repeat(0, SECTOR - |packed|), Directory(sectors[1..]);
      WalkSector(fold, front, sectors[0], gap, rest, q, name);
      assert SectorOf(sectors[0]) == packed + gap;
      Regroup3(front, packed, gap, rest);
      assert Directory(sectors) == SectorOf(sectors[0]) + rest;
      WalkSectors(fold, front + SectorOf(sectors[0]), sectors[1..], q + 1, name);
      hide Walk, Packed, First;
    }
  }

  lemma Regroup3(a: Bytes, b: Bytes, c: Bytes, d: Bytes)
    ensures a + b + c + d == a + ((b + c) + d)
    ensures a + b + c + d == (a + (b + c)) + d
  {
  }

  /** On every directory laid out by the standard, the walk finds the extent and
      size of the first record with the name, or that there is none. */
  lemma FindsFirst(fold: Fold, file: Bytes, extent: nat, sectors: seq<seq<Record>>, name: Bytes)
    requires forall i :: 0 <= i < |sectors| ==> FitsSector(sectors[i])
    requires extent * SECTOR + |sectors| * SECTOR <= |file|
    requires file[extent * SECTOR..extent * SECTOR + |sectors| * SECTOR] == Directory(sectors)
    ensures FindIn(fold, file, extent, |sectors| * SECTOR, name) ==
      match FirstOf(fold, sectors, name) case None => Missing case Some(e) => Entry(e)
  {
    WalkSectors(fold, [], sectors, 0, name);
    assert [] + Directory(sectors) == Directory(sectors);
  }

  lemma {:induction false} FirstAt(fold: Fold, rs: seq<Record>, name: Bytes, i: nat)
    requires i < |rs| && Matches(fold, rs[i].name, name) && forall j :: 0 <= j < i ==> !Matches(fold, rs[j].name, name)
    ensures First(fold, rs, name) == Some(Extent(rs[i].extent, rs[i].size))
  {
    if i > 0 {
      FirstAt(fold, rs[1..], name, i - 1);
    }
  }

  lemma {:induction false} FirstNone(fold: Fold, rs: seq<Record>, name: Bytes)
    requires forall j :: 0 <= j < |rs| ==> !Matches(fold, rs[j].name, name)
    ensures First(fold, rs, name) == None
  {
    if rs != [] {
      FirstNone(fold, rs[1..], name);
    }
  }

  /** A file recorded as `name` or `name;1`, before any other that matches, is the
      one that is found, if names equal themselves. */
  lemma {:induction false} NamedIsFirst(fold: Fold, sectors: seq<seq<Record>>, name: Bytes, k: nat, i: nat)
    requires k < |sectors| && i < |sectors[k]| && fold(name, name)
    requires sectors[k][i].name == name + [';' as int as Byte, '1' as int as Byte]
      || (sectors[k][i].name == name && TrimVersion(name) == name)
    requires forall l, j :: 0 <= l < k && 0 <= j < |sectors[l]| ==> !Matches(fold, sectors[l][j].name, name)
    requires forall j :: 0 <= j < i ==> !Matches(fold, sectors[k][j].name, name)
    ensures FirstOf(fold, sectors, name) == Some(Extent(sectors[k][i].extent, sectors[k][i].size))
  {
    TrimVersionIs(name);
    if k == 0 {
      FirstAt(fold, sectors[0], name, i);
    } else {
      FirstNone(fold, sectors[0], name);
      NamedIsFirst(fold, sectors[1..], name, k - 1, i);
    }
  }

  /* ---- the ignition image ---- */

  const IMAGES: Bytes := [73, 77, 65, 71, 69, 83]                                       // "IMAGES"
  const IGNITION_IMG: Bytes := [73, 71, 78, 73, 84, 73, 79, 78, 46, 73, 77, 71]         // "IGNITION.IMG"
  const SIGNATURE: Bytes := [67, 68, 48, 48, 49]                                        // "CD001"
  const PVD: nat := 16 * SECTOR

  datatype Slot = Slot(offset: nat, size: nat)

  /** The directory extents on the way to the image, and the image. */
  datatype Route = Route(root: Extent, images: Extent, image: Extent)

  function RootOf(iso: Bytes): Option<Extent> {
    match ReadAt(iso, PVD, SECTOR)
    case None => None
    case Some(pvd) =>
      if pvd[0] != 1 || pvd[1..6] != SIGNATURE then None
      else Some(Extent(ReadLittle(pvd, 158), ReadLittle(pvd, 166)))
  }

  lemma Names()
    ensures |IMAGES| == 6 && forall i :: 0 <= i < 6 ==> IMAGES[i] as char == "IMAGES"[i]
    ensures |IGNITION_IMG| == 12 && forall i :: 0 <= i < 12 ==> IGNITION_IMG[i] as char == "IGNITION.IMG"[i]
    ensures |SIGNATURE| == 5 && forall i :: 0 <= i < 5 ==> SIGNATURE[i] as char == "CD001"[i]
  {
  }

  /** A primary volume descriptor (section 8.4 of ECMA-119) at byte 32768, with the
      record of the root directory at its byte 156. */
  predicate Describes(iso: Bytes, root: Record) {
    && root.Valid() && root.Length() == 34
    && |iso| >= 34816 && iso[32768] == 1 && iso[32769..32774] == SIGNATURE
    && iso[32924..32958] == root.Encode()
  }

  lemma RootIsDescribed(iso: Bytes, root: Record)
    requires Describes(iso, root)
    ensures RootOf(iso) == Some(Extent(root.extent, root.size))
  {
    var pvd := iso[32768..34816];
    assert pvd[1..6] == iso[32769..32774] && pvd[156..190] == iso[32924..32958];
    assert pvd == pvd[..156] + root.Encode() + pvd[190..];
    AtRecord(pvd[..156], root, pvd[190..]);
  }

  /** There is a root if and only if the image is long enough and has the type and
      the signature of such a descriptor. */
  lemma RootExactly(iso: Bytes)
    ensures RootOf(iso).Some? <==> |iso| >= 34816 && iso[32768] == 1 && iso[32769..32774] == SIGNATURE
  {
    if |iso| >= 34816 {
      assert iso[32768..34816][1..6] == iso[32769..32774];
    }
  }

  /** The directory of these sectors is at a block of 2048 bytes. */
  predicate Holds(iso: Bytes, dir: Extent, sectors: seq<seq<Record>>) {
    && (forall i :: 0 <= i < |sectors| ==> FitsSector(sectors[i]))
    && dir.size == |sectors| * 2048 && dir.extent * 2048 + dir.size <= |iso|
    && iso[dir.extent * 2048..dir.extent * 2048 + dir.size] == Directory(sectors)
  }

  /** In an image laid out by the standard, the way to the ignition image leads
      through the first record named IMAGES in the root directory and the first
      named IGNITION.IMG in that. */
  lemma StandardRoute(fold: Fold, iso: Bytes, root: Record, top: seq<seq<Record>>, sub: seq<seq<Record>>)
    requires Describes(iso, root) && Holds(iso, Extent(root.extent, root.size), top)
    requires FirstOf(fold, top, IMAGES).Some? ==> Holds(iso, FirstOf(fold, top, IMAGES).value, sub)
    ensures FindRoute(fold, iso) ==
      match FirstOf(fold, top, IMAGES)
      case None => None
      case Some(images) =>
        (match FirstOf(fold, sub, IGNITION_IMG)
         case None => None
         case Some(image) => Some(Route(Extent(root.extent, root.size), images, image)))
  {
    RootIsDescribed(iso, root);
    FindsFirst(fold, iso, root.extent, top, IMAGES);
    if FirstOf(fold, top, IMAGES).Some? {
      FindsFirst(fold, iso, FirstOf(fold, top, IMAGES).value.extent, sub, IGNITION_IMG);
    }
    hide FindIn, FirstOf, Directory, RootOf;
  }

  function FindRoute(fold: Fold, iso: Bytes): Option<Route> {
    match RootOf(iso)
    case None => None
    case Some(root) =>
      match FindIn(fold, iso, root.extent, root.size, IMAGES)
      case Entry(images) =>
        (match FindIn(fold, iso, images.extent, images.size, IGNITION_IMG)
         case Entry(image) => Some(Route(root, images, image))
         case _ => None)
      case _ => None
  }

  /** In bytes, of blocks of 2048. */
  lemma SlotIs(r: Route)
    ensures SlotOf(r) == Slot(2048 * r.image.extent, r.image.size)
  {
  }

  function SlotOf(r: Route): Slot {
    Slot(r.image.extent * SECTOR, r.image.size)
  }

  function Padded(initrd: Bytes, size: nat): (r: Bytes)
    requires |initrd| <= size
    ensures |r| == size
  {
    initrd + Repeat(0, size - |initrd|)
  }

  function Embed(fold: Fold, iso: Bytes, initrd: Bytes): Option<Bytes> {
    match FindRoute(fold, iso)
    case None => None
    case Some(r) =>
      if |initrd| > SlotOf(r).size then None
      else Some(Uploads.Overwrite(iso, SlotOf(r).offset, Padded(initrd, SlotOf(r).size)))
  }

  class IsoFile {
    var content: Bytes

    constructor (content: Bytes)
      ensures this.content == content
    { this.content := content; }

    method FindIgnitionImg(fold: Fold) returns (slot: Option<Slot>)
      ensures slot == match FindRoute(fold, content) case None => None case Some(r) => Some(SlotOf(r))
    {
      var pvd := ReadAt(content, PVD, SECTOR);
      if pvd.None? || pvd.value[0] != 1 || pvd.value[1..6] != SIGNATURE {
        return None;
      }
      var rootExtent, rootSize := ReadLittle(pvd.value, 158), ReadLittle(pvd.value, 166);
      var images := FindDirEntry(fold, content, rootExtent, rootSize, IMAGES);
      if !images.Entry? {
        return None;
      }
      var image := FindDirEntry(fold, content, images.e.extent, images.e.size, IGNITION_IMG);
      if !image.Entry? {
        return None;
      }
      return Some(Slot(image.e.extent * SECTOR, image.e.size));
    }

    /** `initrd` is what `buildInitrd` made. */
    method EmbedIgnition(fold: Fold, initrd: Bytes) returns (ok: bool)
      modifies this
      ensures ok <==> Embed(fold, old(content), initrd).Some?
      ensures content == if ok then Embed(fold, old(content), initrd).value else old(content)
    {
      var slot := FindIgnitionImg(fold);
      if slot.None? || |initrd| > slot.value.size {
        return false;
      }
      var buf := Padded(initrd, slot.value.size);
      content := Uploads.Overwrite(content, slot.value.offset, buf);
      return true;
    }
  }

  /** Only the slot changes: the initrd, then zeros. */
  lemma OnlyTheSlot(fold: Fold, iso: Bytes, initrd: Bytes)
    requires FindRoute(fold, iso).Some? && |initrd| <= SlotOf(FindRoute(fold, iso).value).size
    ensures var slot, iso' := SlotOf(FindRoute(fold, iso).value), Embed(fold, iso, initrd).value;
      && |iso| <= |iso'| && (slot.offset + slot.size <= |iso| ==> |iso'| == |iso|)
      && (forall i :: 0 <= i < |iso| && !(slot.offset <= i < slot.offset + slot.size) ==> iso'[i] == iso[i])
      && (forall i :: 0 <= i < |initrd| ==> slot.offset + i < |iso'| && iso'[slot.offset + i] == initrd[i])
      && (forall j :: slot.offset + |initrd| <= j < slot.offset + slot.size ==> j < |iso'| && iso'[j] == 0)
  {
  }

  predicate Disjoint(a: nat, n: nat, b: nat, m: nat) {
    a + n <= b || b + m <= a
  }

  /** The image overlaps neither the volume descriptor nor the directories that
      lead to it. */
  predicate Apart(r: Route) {
    var slot := SlotOf(r);
    && Disjoint(slot.offset, slot.size, PVD, SECTOR)
    && Disjoint(slot.offset, slot.size, r.root.extent * SECTOR, r.root.size)
    && Disjoint(slot.offset, slot.size, r.images.extent * SECTOR, r.images.size)
  }

  lemma ReadUnchanged(iso: Bytes, at: nat, n: nat, offset: nat, buf: Bytes)
    requires ReadAt(iso, at, n).Some? && Disjoint(offset, |buf|, at, n)
    ensures ReadAt(Uploads.Overwrite(iso, offset, buf), at, n) == ReadAt(iso, at, n)
  {
    var iso' := Uploads.Overwrite(iso, offset, buf);
    assert n > 0 ==> iso'[at..at+n] == iso[at..at+n];
  }

  /** Patching does not move the image. */
  lemma RouteUnchanged(fold: Fold, iso: Bytes, buf: Bytes)
    requires FindRoute(fold, iso).Some? && Apart(FindRoute(fold, iso).value)
    requires |buf| == SlotOf(FindRoute(fold, iso).value).size
    ensures FindRoute(fold, Uploads.Overwrite(iso, SlotOf(FindRoute(fold, iso).value).offset, buf)) == FindRoute(fold, iso)
  {
    var r := FindRoute(fold, iso).value;
    var offset := SlotOf(r).offset;
    ReadUnchanged(iso, PVD, SECTOR, offset, buf);
    ReadUnchanged(iso, r.root.extent * SECTOR, r.root.size, offset, buf);
    ReadUnchanged(iso, r.images.extent * SECTOR, r.images.size, offset, buf);
    hide ReadAt, Uploads.Overwrite, Walk;
  }

  /** Embedding twice is embedding the last. */
  lemma ReEmbed(fold: Fold, iso: Bytes, first: Bytes, last: Bytes)
    requires FindRoute(fold, iso).Some? && Apart(FindRoute(fold, iso).value)
    requires |first| <= SlotOf(FindRoute(fold, iso).value).size && |last| <= SlotOf(FindRoute(fold, iso).value).size
    ensures Embed(fold, Embed(fold, iso, first).value, last) == Embed(fold, iso, last)
  {
    var slot := SlotOf(FindRoute(fold, iso).value);
    RouteUnchanged(fold, iso, Padded(first, slot.size));
    OverwriteTwice(iso, slot.offset, Padded(first, slot.size), Padded(last, slot.size));
  }

  lemma OverwriteTwice(content: Bytes, at: nat, a: Bytes, b: Bytes)
    requires |a| == |b|
    ensures Uploads.Overwrite(Uploads.Overwrite(content, at, a), at, b) == Uploads.Overwrite(content, at, b)
  {
  }
}
