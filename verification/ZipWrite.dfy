/** Central directories as they are written (section 4.3.12 of PKWARE's APPNOTE), and what ZipArchive
    makes of them. */
module ZipWrite {
  import opened Memory
  import opened ZipArchive
  import Leb128
  import Probing

  /** One file header. */
  datatype Record = Record(madeBy: U2, needed: U2, flags: U2, compression: U2, modWhen: U4, crc: U4, compLen: U4,
                           uncompLen: U4, disk: U2, internal: U2, external: U4, localOffset: U4,
                           name: seq<Byte>, extra: seq<Byte>, comment: seq<Byte>)
  {
    predicate Fits() { |name| < 0x1_0000 && |extra| < 0x1_0000 && |comment| < 0x1_0000 }

    /** The fields in the order of the format, with their sizes. */
    function Pieces(): (pieces: seq<seq<Byte>>)
      requires Fits()
      ensures |pieces| == 19
    {
      [[0x50, 0x4b, 0x01, 0x02], Bytes2(madeBy), Bytes2(needed), Bytes2(flags), Bytes2(compression), Bytes4(modWhen),
       Bytes4(crc), Bytes4(compLen), Bytes4(uncompLen), Bytes2(|name|), Bytes2(|extra|), Bytes2(|comment|),
       Bytes2(disk), Bytes2(internal), Bytes4(external), Bytes4(localOffset), name, extra, comment]
    }

    function Bytes(): seq<Byte>
      requires Fits()
    {
      Flat(Pieces())
    }

    /** What a lookup is to report. */
    function Described(): Info { Info(compression, modWhen, crc, compLen, uncompLen) }
  }

  lemma FieldOffsets(r: Record)
    requires r.Fits()
    ensures var s := r.Pieces();
      && Offset(s, 0) == 0 && Offset(s, 4) == 10 && Offset(s, 5) == 12 && Offset(s, 6) == 16 && Offset(s, 7) == 20
      && Offset(s, 8) == 24 && Offset(s, 9) == 28 && Offset(s, 10) == 30 && Offset(s, 11) == 32 && Offset(s, 15) == 42
      && Offset(s, 16) == 46 && |r.Bytes()| == 46 + |r.name| + |r.extra| + |r.comment|
  {
    var s := r.Pieces();
    hide Bytes2, Bytes4;
    FlatLength(s);
    hide Flat;
    assert Offset(s, 1) == 4 && Offset(s, 2) == 6 && Offset(s, 3) == 8 && Offset(s, 4) == 10;
    assert Offset(s, 5) == 12 && Offset(s, 6) == 16 && Offset(s, 7) == 20 && Offset(s, 8) == 24;
    assert Offset(s, 9) == 28 && Offset(s, 10) == 30 && Offset(s, 11) == 32 && Offset(s, 12) == 34;
    assert Offset(s, 13) == 36 && Offset(s, 14) == 38 && Offset(s, 15) == 42 && Offset(s, 16) == 46;
    assert Offset(s, 17) == 46 + |r.name| && Offset(s, 18) == 46 + |r.name| + |r.extra|;
  }

  lemma Field2(m: seq<Byte>, p: nat, pieces: seq<seq<Byte>>, k: nat, v: U2)
    requires StandsAt(m, p, Flat(pieces)) && k < |pieces| && pieces[k] == Bytes2(v)
    ensures p + Offset(pieces, k) + 2 <= |m| && Load2(m, p + Offset(pieces, k)) == v
  {
    hide Bytes2, Load2, Offset, Flat, StandsAt;
    PieceStands(m, p, pieces, k);
    RoomFor(m, p + Offset(pieces, k), pieces[k]);
    Load2Written(m, p + Offset(pieces, k), v);
  }

  lemma Field4(m: seq<Byte>, p: nat, pieces: seq<seq<Byte>>, k: nat, v: U4)
    requires StandsAt(m, p, Flat(pieces)) && k < |pieces| && pieces[k] == Bytes4(v)
    ensures p + Offset(pieces, k) + 4 <= |m| && Load4(m, p + Offset(pieces, k)) == v
  {
    hide Bytes4, Load4, Offset, Flat, StandsAt;
    PieceStands(m, p, pieces, k);
    RoomFor(m, p + Offset(pieces, k), pieces[k]);
    Load4Written(m, p + Offset(pieces, k), v);
  }

  lemma RoomFor(m: seq<Byte>, p: nat, bytes: seq<Byte>)
    requires StandsAt(m, p, bytes)
    ensures p + |bytes| <= |m|
  {
  }

  /** Every field is read back, at the offset that the reader has for it. */
  lemma InfoRead(m: seq<Byte>, p: nat, r: Record)
    requires r.Fits() && StandsAt(m, p, r.Bytes())
    ensures p + CDE_LEN <= |m| && InfoAt(m, p) == r.Described()
  {
    hide StandsAt, Bytes2, Bytes4, Load2, Load4, Flat, Offset;
    FieldOffsets(r);
    RoomFor(m, p, r.Bytes());
    var s := r.Pieces();
    Field2(m, p, s, 4, r.compression);
    Field4(m, p, s, 5, r.modWhen);
    Field4(m, p, s, 6, r.crc);
    Field4(m, p, s, 7, r.compLen);
    Field4(m, p, s, 8, r.uncompLen);
  }

  lemma FieldsRead(m: seq<Byte>, p: nat, r: Record)
    requires r.Fits() && StandsAt(m, p, r.Bytes())
    ensures p + CDE_LEN <= |m| && Load4(m, p) == CDE_SIGNATURE && InfoAt(m, p) == r.Described()
    ensures Load4(m, p + CDE_LOCAL_OFFSET) == r.localOffset
  {
    assert r.Pieces()[0] == Bytes4(0x02014b50);
    hide StandsAt, Bytes2, Bytes4, Load2, Load4, Flat, Offset, InfoAt, Record.Described;
    InfoRead(m, p, r);
    FieldOffsets(r);
    var s := r.Pieces();
    Field4(m, p, s, 0, 0x02014b50);
    Field4(m, p, s, 15, r.localOffset);
  }

  lemma LengthsRead(m: seq<Byte>, p: nat, r: Record)
    requires r.Fits() && StandsAt(m, p, r.Bytes())
    ensures p + CDE_LEN <= |m| && NameLen(m, p) == |r.name| && Next(m, p) == p + |r.Bytes()|
  {
    hide StandsAt, Bytes2, Bytes4, Load2, Flat, Offset;
    FieldOffsets(r);
    RoomFor(m, p, r.Bytes());
    var s := r.Pieces();
    Field2(m, p, s, 9, |r.name|);
    Field2(m, p, s, 10, |r.extra|);
    Field2(m, p, s, 11, |r.comment|);
  }

  lemma NameRead(m: seq<Byte>, p: nat, r: Record)
    requires r.Fits() && StandsAt(m, p, r.Bytes())
    ensures At(m, p) && Name(m, p) == r.name
  {
    LengthsRead(m, p, r);
    FieldOffsets(r);
    PieceStands(m, p, r.Pieces(), 16);
    hide NameLen, Flat, Offset, Bytes2, Bytes4;
  }

  // ----- A directory -----

  predicate AllFit(rs: seq<Record>, fileOffset: nat) {
    rs == [] || (rs[0].Fits() && Leb128.AsSigned(rs[0].localOffset) < fileOffset && AllFit(rs[1..], fileOffset))
  }

  function DirectoryBytes(rs: seq<Record>, fileOffset: nat): seq<Byte>
    requires AllFit(rs, fileOffset)
  {
    if rs == [] then [] else rs[0].Bytes() + DirectoryBytes(rs[1..], fileOffset)
  }

  /** At the places recs stand the records rs. */
  ghost predicate Stand(m: seq<Byte>, recs: seq<nat>, rs: seq<Record>) {
    |recs| == |rs| && forall i | 0 <= i < |recs| :: Stands(m, recs[i], rs[i])
  }

  ghost predicate Stands(m: seq<Byte>, p: nat, r: Record) {
    At(m, p) && Name(m, p) == r.name && InfoAt(m, p) == r.Described()
  }

  /** A written directory is walked to its end, over exactly its records. */
  lemma {:induction false} DirectoryRead(m: seq<Byte>, dir: Directory, p: nat, rs: seq<Record>)
    requires Mapped(m, dir) && AllFit(rs, dir.fileOffset)
    requires StandsAt(m, p, DirectoryBytes(rs, dir.fileOffset))
    requires p + |DirectoryBytes(rs, dir.fileOffset)| <= dir.end
    ensures Walk(m, dir, p, |rs|).Some? && Stand(m, Walk(m, dir, p, |rs|).value, rs)
    decreases |rs|
  {
    hide Record.Bytes, StandsAt, RecordOk, Next, InfoAt, At, Name, Mapped;
    if rs != [] {
      var r, rest := rs[0], rs[1..];
      StandsInParts(m, p, r.Bytes(), DirectoryBytes(rest, dir.fileOffset));
      RecordRead(m, dir, p, r);
      DirectoryRead(m, dir, p + |r.Bytes()|, rest);
      hide Stands;
      assert rs == [r] + rest;
    }
  }

  lemma RecordRead(m: seq<Byte>, dir: Directory, p: nat, r: Record)
    requires Mapped(m, dir) && r.Fits() && StandsAt(m, p, r.Bytes()) && p + |r.Bytes()| <= dir.end
    requires Leb128.AsSigned(r.localOffset) < dir.fileOffset
    ensures p + CDE_LEN <= |m| && RecordOk(m, dir, p) && Next(m, p) == p + |r.Bytes()| && Stands(m, p, r)
  {
    hide StandsAt, InfoAt, At, Name, Next, Load4;
    FieldsRead(m, p, r);
    LengthsRead(m, p, r);
    NameRead(m, p, r);
    FieldOffsets(r);
  }

  /** Opening a written directory and asking for a name: the first record that was written with that
      name is described, field by field, or there is none. */
  method OpenAndLookup(m: seq<Byte>, dir: Directory, numEntries: U2, name: seq<Byte>, ghost rs: seq<Record>)
    returns (info: Option<Info>)
    requires Mapped(m, dir) && numEntries == |rs| && AllFit(rs, dir.fileOffset)
    requires StandsAt(m, dir.start, DirectoryBytes(rs, dir.fileOffset))
    requires dir.start + |DirectoryBytes(rs, dir.fileOffset)| <= dir.end
    ensures info.None? <==> forall i | 0 <= i < |rs| :: rs[i].name != name
    ensures forall i | 0 <= i < |rs| && rs[i].name == name && (forall k | 0 <= k < i :: rs[k].name != name) ::
      info == Some(rs[i].Described())
  {
    hide Probing.Valid, Mapped, StandsAt, DirectoryBytes, AllFit, Walk;
    DirectoryRead(m, dir, dir.start, rs);
    var archive := ParseZipArchive(m, dir, numEntries);
    info := archive.value.Lookup(name);
    ghost var recs := archive.value.recs;
    assert forall i | 0 <= i < |rs| :: Stands(m, recs[i], rs[i]);
    hide InfoAt, Name, At, Record.Described;
    ghost var hits := Hits(m, recs, name);
    assert forall i | 0 <= i < |rs| :: hits[i] <==> rs[i].name == name;
  }
}
