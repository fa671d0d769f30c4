/** The tool that writes a ramdisk and the kernel code that reads it. */
module Ramdisk {
  import opened RamdiskImage
  import opened Words

  // ---- The writer ------------------------------------------------------------------------------------------

  predicate IsSlash(c: Byte) { c == 92 || c == 47 }

  /** The file name in a path: what follows the last slash. */
  ghost predicate IsBaseName(fp: seq<Byte>, name: seq<Byte>) {
    && |name| < |fp| && fp[|fp| - |name|..] == name && IsSlash(fp[|fp| - |name| - 1])
    && forall i :: 0 <= i < |name| ==> !IsSlash(name[i])
  }

  /** The loop that finds the name; nftw paths have a slash. */
  method BaseName(fp: seq<Byte>) returns (name: seq<Byte>)
    requires exists i :: 0 <= i < |fp| && IsSlash(fp[i])
    ensures IsBaseName(fp, name)
  {
    ghost var i0 :| 0 <= i0 < |fp| && IsSlash(fp[i0]);
    var sl := |fp|;
    while sl == |fp| || (fp[sl] != 92 && fp[sl] != 47)
      invariant i0 <= sl <= |fp| && forall i :: sl < i < |fp| ==> !IsSlash(fp[i])
      decreases sl
    {
      sl := sl - 1;
    }
    sl := sl + 1;
    name := fp[sl..];
  }

  class ImageWriter {
    var disk: seq<Byte>
    var files: nat
    ghost var added: seq<RdFile>

    ghost predicate Valid()
      reads this
    {
      files == |added| % U16 && disk == HeaderBytes(0, 0) + Records(added)
    }

    /** The header written first, still empty. */
    constructor ()
      ensures Valid() && added == []
    {
      disk, files, added := HeaderBytes(0, 0), 0, [];
      assert HeaderBytes(0, 0) == HeaderBytes(0, 0) + Records([]);
    }

    /** addFile. */
    method AddFile(fp: seq<Byte>, content: seq<Byte>) returns (ghost name: seq<Byte>)
      requires Valid() && exists i :: 0 <= i < |fp| && IsSlash(fp[i])
      modifies this
      ensures Valid() && IsBaseName(fp, name) && added == old(added) + [RdFile(name, content)]
    {
      ghost var h := HeaderBytes(0, 0);
      assert U16 > 0;
      assert files == |added| % U16 && disk == h + Records(added);
      hide *;
      files := (files + 1) % U16;
      disk := disk + (LE(RD_FILE_MAGIC, 4) + LE(|content|, 8));
      var nm := BaseName(fp);
      disk := disk + nm + [0];
      CopyFile(content);
      name := nm;
      AppendRecord(h, added, RdFile(name, content));
      added := added + [RdFile(name, content)];
      WriterValid(this, old(added));
    }

    method CopyFile(src: seq<Byte>)
      modifies this`disk
      ensures disk == old(disk) + src
    {
      var i := 0;
      while i < |src|
        invariant i <= |src| && disk == old(disk) + src[..i]
      {
        disk := disk + [src[i]];
        i := i + 1;
      }
    }

    /** The end of main: the header again, complete. */
    method Finish()
      requires Valid()
      modifies this
      ensures disk == Image(added)
    {
      HeaderLength(0, 0);
      HeaderLength(RD_HEADER_MAGIC, files);
      disk := HeaderBytes(RD_HEADER_MAGIC, files) + disk[6..];
    }
  }

  lemma WriterValid(w: ImageWriter, added: seq<RdFile>)
    requires |w.added| == |added| + 1 && w.files == (|added| % U16 + 1) % U16
    requires w.disk == HeaderBytes(0, 0) + Records(w.added)
    ensures w.Valid()
  {
    hide HeaderBytes, Records;
    OneMore(|added|);
  }

  lemma OneMore(n: nat)
    ensures (n % U16 + 1) % U16 == (n + 1) % U16
  {}

  lemma AppendRecord(h: seq<Byte>, added: seq<RdFile>, f: RdFile)
    ensures h + Records(added) + (LE(RD_FILE_MAGIC, 4) + LE(|f.data|, 8)) + f.name + [0] + f.data
            == h + Records(added + [f])
  {
    assert (added + [f])[..|added|] == added;
    assert Records(added + [f]) == Records(added) + Record(f);
    var r, b := Records(added), LE(RD_FILE_MAGIC, 4) + LE(|f.data|, 8);
    assert Record(f) == b + (f.name + [0] + f.data);
    hide *;
    Reassociate(h + r, b, f.name, [0], f.data);
    Reassociate3(h, r, b + (f.name + [0] + f.data));
  }

  lemma Reassociate(a: seq<Byte>, b: seq<Byte>, c: seq<Byte>, d: seq<Byte>, e: seq<Byte>)
    ensures a + b + c + d + e == a + (b + (c + d + e))
  {}

  lemma Reassociate3(a: seq<Byte>, b: seq<Byte>, c: seq<Byte>)
    ensures a + b + c == a + (b + c)
  {}

  // ---- The reader ------------------------------------------------------------------------------------------

  /** What addVFSFile is told about a file; the size has 32 bits. */
  datatype VfsFile = VfsFile(name: seq<Byte>, phys: nat, size: nat)

  function Low16(n: nat): (r: nat)
    ensures r <= n && r < U16
  {
    n % U16
  }

  function Low32(n: nat): (r: nat)
    ensures r <= n && (n < U32 <==> r == n)
  {
    n % U32
  }

  method Strlen(img: seq<Byte>, at: nat) returns (len: nat)
    ensures At(img, at + len) == 0 && forall j :: at <= j < at + len ==> At(img, j) != 0
  {
    len := 0;
    while At(img, at + len) != 0
      invariant forall j :: at <= j < at + len ==> At(img, j) != 0
      decreases |img| - (at + len)
    {
      len := len + 1;
    }
  }

  lemma StrlenIs(img: seq<Byte>, at: nat, name: seq<Byte>, len: nat)
    requires NameAt(img, at, name) && forall i :: 0 <= i < |name| ==> name[i] != 0
    requires At(img, at + len) == 0 && forall j :: at <= j < at + len ==> At(img, j) != 0
    ensures len == |name|
  {
    var j := if len < |name| then len else |name|;
    assert At(img, at + j) == (name + [0])[j];
  }

  /** The file number `i` as it is registered: its data address is off by the difference between its size and the
      size of the first file, unless `repaired`. */
  function Registered(fs: seq<RdFile>, rdptr: nat, repaired: bool, i: nat): VfsFile
    requires i < |fs|
    ensures Registered(fs, rdptr, repaired, i).name == fs[i].name
  {
    OffsetGrows(fs, i);
    VfsFile(fs[i].name, rdptr + DataOffset(fs, i) + (if repaired then 0 else |fs[i].data| - |fs[0].data|),
            Low32(|fs[i].data|))
  }

  lemma {:induction false} OffsetGrows(fs: seq<RdFile>, i: nat)
    requires i < |fs|
    ensures i > 0 ==> Offset(fs, i) >= |fs[0].data|
    decreases i
  {
    if i > 0 {
      OffsetNext(fs, i - 1);
      if i > 1 { OffsetGrows(fs, i - 1); }
    }
  }

  /** initRamdisk on the image the tool wrote. `repaired` makes physPtr advance by the size that was read before
      `file` moves on. */
  method InitRamdisk(img: seq<Byte>, rdptr: nat, repaired: bool, ghost fs: seq<RdFile>) returns (r: seq<VfsFile>)
    requires img == Image(fs) && forall i :: 0 <= i < |fs| ==> Storable(fs[i])
    ensures |r| == Low16(|fs|)
    ensures forall i :: 0 <= i < |r| ==> r[i] == Registered(fs, rdptr, repaired, i)
  {
    r := [];
    HeaderKnown(fs);
    hide *;
    if ReadLE(img, 0, 4) != RD_HEADER_MAGIC { return; }
    var files := ReadLE(img, 4, 2);
    var file: nat, physPtr: nat := 6, rdptr + 6;
    var i: nat := 0;
    if fs != [] { FirstAt(fs, rdptr, repaired); }
    while i < files
      invariant i <= files == Low16(|fs|) && |r| == i && file == Offset(fs, i)
      invariant i < |fs| ==> physPtr == PhysAt(fs, rdptr, repaired, i)
      invariant forall j :: 0 <= j < i ==> r[j] == Registered(fs, rdptr, repaired, j)
    {
      var ok, fl, size, len := ReadRecord(img, file, physPtr, repaired, fs, i, rdptr);
      if !ok { break; }
      r := r + [fl];
      file := file + size + len + 1 + 12;
      physPtr := Advance(img, file, physPtr, size, len, repaired, fs, i, rdptr);
      i := i + 1;
    }
  }

  /** The header and the name of one file; `ok` is whether the magic is there. */
  method ReadRecord(img: seq<Byte>, file: nat, physPtr: nat, repaired: bool, ghost fs: seq<RdFile>, ghost i: nat,
                    ghost rdptr: nat)
    returns (ok: bool, fl: VfsFile, size: nat, len: nat)
    requires i < |fs| && img == Image(fs) && file == Offset(fs, i) && physPtr == PhysAt(fs, rdptr, repaired, i)
    requires Storable(fs[i])
    ensures ok && fl == Registered(fs, rdptr, repaired, i) && size == |fs[i].data| && len == |fs[i].name|
    ensures file + size + len + 1 + 12 == Offset(fs, i + 1)
  {
    FieldsRead(fs, i);
    OffsetNext(fs, i);
    RegisteredAt(fs, rdptr, repaired, i);
    assert |fs[i].name| < U32 && forall j :: 0 <= j < |fs[i].name| ==> fs[i].name[j] != 0;
    hide *;
    ok := ReadLE(img, file, 4) == RD_FILE_MAGIC;
    var name;
    name, len := ReadName(img, file + 12, fs[i].name);
    size := ReadLE(img, file + 4, 8);
    fl := VfsFile(name, physPtr + 12 + len + 1, Low32(size));
  }

  method Advance(img: seq<Byte>, file: nat, physPtr: nat, size: nat, len: nat, repaired: bool,
                 ghost fs: seq<RdFile>, ghost i: nat, ghost rdptr: nat) returns (next: nat)
    requires i < |fs| && img == Image(fs) && file == Offset(fs, i + 1) && physPtr == PhysAt(fs, rdptr, repaired, i)
    requires size == |fs[i].data| && len == |fs[i].name| && forall i :: 0 <= i < |fs| ==> Storable(fs[i])
    ensures i + 1 < |fs| ==> next == PhysAt(fs, rdptr, repaired, i + 1)
  {
    if i + 1 < |fs| {
      FieldsRead(fs, i + 1);
      PhysNext(fs, rdptr, repaired, i);
    }
    hide *;
    var step := size;
    if !repaired { step := ReadLE(img, file + 4, 8); }
    next := physPtr + step + len + 1 + 12;
  }

  /** physPtr when file `i` is looked at. */
  function PhysAt(fs: seq<RdFile>, rdptr: nat, repaired: bool, i: nat): int
    requires i < |fs|
  {
    rdptr + Offset(fs, i) + if repaired then 0 else |fs[i].data| - |fs[0].data|
  }

  lemma HeaderKnown(fs: seq<RdFile>)
    ensures ReadLE(Image(fs), 0, 4) == RD_HEADER_MAGIC && ReadLE(Image(fs), 4, 2) == Low16(|fs|) && Offset(fs, 0) == 6
  {
    HeaderRead(fs);
  }

  lemma FirstAt(fs: seq<RdFile>, rdptr: nat, repaired: bool)
    requires fs != []
    ensures PhysAt(fs, rdptr, repaired, 0) == rdptr + 6
  {}

  /** One turn of the walk: physPtr moves on by the size of the next file instead of this one, unless repaired. */
  lemma PhysNext(fs: seq<RdFile>, rdptr: nat, repaired: bool, i: nat)
    requires i + 1 < |fs|
    ensures PhysAt(fs, rdptr, repaired, i + 1)
      == PhysAt(fs, rdptr, repaired, i) + |fs[if repaired then i else i + 1].data| + |fs[i].name| + 1 + 12
  {
    OffsetNext(fs, i);
    PhysIs(fs, rdptr, repaired, i);
    PhysIs(fs, rdptr, repaired, i + 1);
    hide *;
  }

  lemma PhysIs(fs: seq<RdFile>, rdptr: nat, repaired: bool, i: nat)
    requires i < |fs|
    ensures PhysAt(fs, rdptr, repaired, i)
         == rdptr + Offset(fs, i) + if repaired then 0 else |fs[i].data| - |fs[0].data|
  {}

  lemma RegisteredAt(fs: seq<RdFile>, rdptr: nat, repaired: bool, i: nat)
    requires i < |fs|
    ensures PhysAt(fs, rdptr, repaired, i) >= 0
    ensures Registered(fs, rdptr, repaired, i)
      == VfsFile(fs[i].name, PhysAt(fs, rdptr, repaired, i) + 12 + |fs[i].name| + 1, Low32(|fs[i].data|))
  {
    OffsetGrows(fs, i);
  }

  method ReadName(img: seq<Byte>, at: nat, ghost known: seq<Byte>) returns (name: seq<Byte>, len: nat)
    requires NameAt(img, at, known) && |known| < U32 && forall i :: 0 <= i < |known| ==> known[i] != 0
    ensures name == known && len == |known|
  {
    len := Strlen(img, at);
    StrlenIs(img, at, known, len);
    name := StringAt(img, at, len);
    forall j: nat | j < len
      ensures name[j] == known[j]
    {
      assert At(img, at + j) == (known + [0])[j];
    }
    len := len % U32;
  }

  function StringAt(img: seq<Byte>, at: nat, len: nat): seq<Byte> {
    seq<Byte>(len, k requires k >= 0 => At(img, at + k))
  }

  /** As the code stands, file `i` gets the address of its data exactly when it is as large as the first file. */
  lemma AddressRight(fs: seq<RdFile>, rdptr: nat, i: nat)
    requires i < |fs|
    ensures Registered(fs, rdptr, false, i).phys == rdptr + DataOffset(fs, i) <==> |fs[i].data| == |fs[0].data|
    ensures Registered(fs, rdptr, true, i).phys == rdptr + DataOffset(fs, i)
    ensures Registered(fs, rdptr, false, i).size == |fs[i].data| <==> |fs[i].data| < U32
  {}

  lemma AddressUsable(fs: seq<RdFile>, rdptr: nat, repaired: bool, i: nat)
    requires i < |fs| && |fs[i].data| < U32 && (repaired || |fs[i].data| == |fs[0].data|)
    ensures Registered(fs, rdptr, repaired, i).phys == rdptr + DataOffset(fs, i)
    ensures Registered(fs, rdptr, repaired, i).size == |fs[i].data|
  {
    AddressRight(fs, rdptr, i);
  }

  /** ramdiskReadFile. It does not look at `sz`: it copies up to the end of the file. */
  method ReadFile(img: seq<Byte>, rdptr: nat, fl: VfsFile, sz: nat, offset: nat) returns (dst: seq<Byte>)
    requires fl.phys >= rdptr
    ensures |dst| == if offset < fl.size then fl.size - offset else 0
    ensures forall k :: 0 <= k < |dst| ==> dst[k] == At(img, fl.phys - rdptr + offset + k)
  {
    var flptr := fl.phys - rdptr + offset;
    dst := [];
    while offset + |dst| < fl.size
      invariant |dst| == 0 || offset + |dst| <= fl.size
      invariant forall k :: 0 <= k < |dst| ==> dst[k] == At(img, flptr + k)
    {
      dst := dst + [At(img, flptr + |dst|)];
    }
  }

  /** From writing to reading: with its address right, a file below 4 GiB reads back from any offset as its content
      from there on. */
  method ReadBackFile(fs: seq<RdFile>, rdptr: nat, repaired: bool, i: nat, sz: nat, offset: nat)
    returns (dst: seq<Byte>)
    requires i < |fs| && |fs[i].data| < U32 && offset <= |fs[i].data|
    requires repaired || |fs[i].data| == |fs[0].data|
    ensures dst == fs[i].data[offset..]
  {
    hide *;
    var img, fl := Image(fs), Registered(fs, rdptr, repaired, i);
    ghost var at, data := DataOffset(fs, i), fs[i].data;
    AddressUsable(fs, rdptr, repaired, i);
    FileLies(fs, i);
    dst := ReadFile(img, rdptr, fl, sz, offset);
    forall k: nat | k < |dst|
      ensures dst[k] == data[offset..][k]
    {
      LiesAt(img, at, data, offset + k);
    }
  }
}
