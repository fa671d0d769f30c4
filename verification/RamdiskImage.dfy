/** The format of a ramdisk: a header, then for every file a header, its name with a NUL behind it, and its data. */
module RamdiskImage {
  import opened Words

  type Byte = n: nat | n < 256

  const RD_FILE_MAGIC: nat := 0x5244464C
  const RD_HEADER_MAGIC: nat := 0x52444852
  const U16: nat := 0x1_0000

  datatype RdFile = RdFile(name: seq<Byte>, data: seq<Byte>)

  /** A name a C string can hold, and a size a size_t can. */
  ghost predicate Storable(f: RdFile) {
    (forall i :: 0 <= i < |f.name| ==> f.name[i] != 0) && |f.name| < U32 && |f.data| < U64
  }

  // ---- Numbers in memory ---------------------------------------------------------------------------------

  function Pow256(w: nat): (p: nat)
    ensures p > 0
  {
    if w == 0 then 1 else 256 * Pow256(w - 1)
  }

  /** The `w` bytes of `n`, lowest first. */
  function LE(n: nat, w: nat): seq<Byte> {
    if w == 0 then [] else [n % 256] + LE(n / 256, w - 1)
  }

  /** Memory behind the image reads as zero. */
  function At(img: seq<Byte>, i: nat): Byte { if i < |img| then img[i] else 0 }

  function ReadLE(img: seq<Byte>, at: nat, w: nat): nat
    decreases w
  {
    if w == 0 then 0 else At(img, at) + 256 * ReadLE(img, at + 1, w - 1)
  }

  /** The bytes `b` lie in the image from `at` on. */
  ghost predicate Lies(img: seq<Byte>, at: nat, b: seq<Byte>) {
    at + |b| <= |img| && img[at..at + |b|] == b
  }

  lemma LiesAt(img: seq<Byte>, at: nat, b: seq<Byte>, i: nat)
    requires Lies(img, at, b) && i < |b|
    ensures At(img, at + i) == b[i]
  {}

  lemma LiesParts(img: seq<Byte>, at: nat, a: seq<Byte>, b: seq<Byte>)
    requires Lies(img, at, a + b)
    ensures Lies(img, at, a) && Lies(img, at + |a|, b)
  {
    assert img[at..at + |a|] == (a + b)[..|a|];
    assert img[at + |a|..at + |a| + |b|] == (a + b)[|a|..];
  }

  lemma {:induction false} LELength(n: nat, w: nat)
    ensures |LE(n, w)| == w
    decreases w
  {
    if w > 0 { LELength(n / 256, w - 1); }
  }

  /** Byte `k` of a number as it is written. */
  lemma {:induction false} LEAt(n: nat, w: nat, k: nat)
    requires k < w
    ensures |LE(n, w)| == w && LE(n, w)[k] == n / Pow256(k) % 256
    decreases w
  {
    LELength(n, w);
    LELength(n / 256, w - 1);
    if k > 0 {
      LEAt(n / 256, w - 1, k - 1);
      DivTwice(n, 256, Pow256(k - 1), Pow256(k));
    }
  }

  /** A number written into an image is read back, as far as its width goes. */
  lemma {:induction false} ReadBack(img: seq<Byte>, at: nat, n: nat, w: nat)
    requires Lies(img, at, LE(n, w))
    ensures ReadLE(img, at, w) == n % Pow256(w)
    decreases w
  {
    if w > 0 {
      LELength(n, w);
      LiesParts(img, at, [n % 256], LE(n / 256, w - 1));
      LiesAt(img, at, LE(n, w), 0);
      ReadBack(img, at + 1, n / 256, w - 1);
      ModStep(n, Pow256(w - 1));
    } else {
      assert n % 1 == 0;
    }
  }

  lemma ModStep(n: nat, p: nat)
    requires p > 0
    ensures n % (256 * p) == n % 256 + 256 * (n / 256 % p)
  {
    var q, r := n / 256 / p, n / 256 % p;
    assert n / 256 == q * p + r;
    Regroup(q, p);
    DivUnique(n, 256 * p, q, n % 256 + 256 * r);
  }

  lemma Regroup(q: nat, p: nat)
    ensures 256 * (q * p) == q * (256 * p)
  {}

  // ---- The image -------------------------------------------------------------------------------------------

  function FileHeader(f: RdFile): seq<Byte> { LE(RD_FILE_MAGIC, 4) + LE(|f.data|, 8) }

  function Record(f: RdFile): seq<Byte> { FileHeader(f) + (f.name + [0] + f.data) }

  function Records(fs: seq<RdFile>): seq<Byte> {
    if fs == [] then [] else Records(fs[..|fs| - 1]) + Record(fs[|fs| - 1])
  }

  function HeaderBytes(magic: nat, files: nat): seq<Byte> { LE(magic, 4) + LE(files, 2) }

  function Image(fs: seq<RdFile>): seq<Byte> { HeaderBytes(RD_HEADER_MAGIC, |fs| % U16) + Records(fs) }

  /** Where the record of file `i` starts. */
  function Offset(fs: seq<RdFile>, i: nat): nat
    requires i <= |fs|
  {
    6 + |Records(fs[..i])|
  }

  function DataOffset(fs: seq<RdFile>, i: nat): nat
    requires i < |fs|
  {
    Offset(fs, i) + 12 + |fs[i].name| + 1
  }

  lemma RecordLength(f: RdFile)
    ensures |FileHeader(f)| == 12 && |Record(f)| == 13 + |f.name| + |f.data|
  {
    LELength(RD_FILE_MAGIC, 4);
    LELength(|f.data|, 8);
  }

  lemma HeaderLength(magic: nat, files: nat)
    ensures |HeaderBytes(magic, files)| == 6
  {
    LELength(magic, 4);
    LELength(files, 2);
  }

  lemma OffsetNext(fs: seq<RdFile>, i: nat)
    requires i < |fs|
    ensures Offset(fs, i + 1) == Offset(fs, i) + 13 + |fs[i].name| + |fs[i].data|
  {
    assert fs[..i + 1][..i] == fs[..i];
    RecordLength(fs[i]);
  }

  lemma {:induction false} RecordsLie(img: seq<Byte>, at: nat, fs: seq<RdFile>, i: nat)
    requires Lies(img, at, Records(fs)) && i < |fs|
    ensures Lies(img, at + |Records(fs[..i])|, Record(fs[i]))
    decreases |fs|
  {
    hide *;
    var init := fs[..|fs| - 1];
    LastRecord(fs);
    LiesParts(img, at, Records(init), Record(fs[|fs| - 1]));
    if i < |fs| - 1 {
      RecordsLie(img, at, init, i);
      assert init[..i] == fs[..i];
    } else {
      assert init == fs[..i];
    }
  }

  lemma LastRecord(fs: seq<RdFile>)
    requires fs != []
    ensures Records(fs) == Records(fs[..|fs| - 1]) + Record(fs[|fs| - 1])
  {}

  /** A record taken apart, and where it starts. */
  lemma Layout(fs: seq<RdFile>, i: nat)
    requires i < |fs|
    ensures Record(fs[i]) == FileHeader(fs[i]) + (fs[i].name + [0] + fs[i].data) && |FileHeader(fs[i])| == 12
    ensures FileHeader(fs[i]) == LE(RD_FILE_MAGIC, 4) + LE(|fs[i].data|, 8) && |LE(RD_FILE_MAGIC, 4)| == 4
    ensures Offset(fs, i) == 6 + |Records(fs[..i])| && DataOffset(fs, i) == Offset(fs, i) + 12 + |fs[i].name| + 1
  {
    RecordLength(fs[i]);
    LELength(RD_FILE_MAGIC, 4);
  }

  lemma ImageLies(fs: seq<RdFile>)
    ensures Lies(Image(fs), 0, LE(RD_HEADER_MAGIC, 4)) && Lies(Image(fs), 4, LE(|fs| % U16, 2))
    ensures Lies(Image(fs), 6, Records(fs))
  {
    var h := HeaderBytes(RD_HEADER_MAGIC, |fs| % U16);
    HeaderLength(RD_HEADER_MAGIC, |fs| % U16);
    LELength(RD_HEADER_MAGIC, 4);
    assert Lies(Image(fs), 0, h + Records(fs)) && h == LE(RD_HEADER_MAGIC, 4) + LE(|fs| % U16, 2);
    hide *;
    LiesParts(Image(fs), 0, h, Records(fs));
    LiesParts(Image(fs), 0, LE(RD_HEADER_MAGIC, 4), LE(|fs| % U16, 2));
  }

  /** What an image holds for file `i`: magic, size, name, NUL and data, each where the format puts it. */
  lemma FileLies(fs: seq<RdFile>, i: nat)
    requires i < |fs|
    ensures var img, at, f := Image(fs), Offset(fs, i), fs[i];
      && Lies(img, at, LE(RD_FILE_MAGIC, 4)) && Lies(img, at + 4, LE(|f.data|, 8))
      && Lies(img, at + 12, f.name + [0]) && Lies(img, DataOffset(fs, i), f.data)
  {
    hide *;
    var img, at, f := Image(fs), Offset(fs, i), fs[i];
    ImageLies(fs);
    RecordsLie(img, 6, fs, i);
    Layout(fs, i);
    LiesParts(img, at, FileHeader(f), f.name + [0] + f.data);
    LiesParts(img, at, LE(RD_FILE_MAGIC, 4), LE(|f.data|, 8));
    LiesParts(img, at + 12, f.name + [0], f.data);
  }

  lemma HeaderRead(fs: seq<RdFile>)
    ensures ReadLE(Image(fs), 0, 4) == RD_HEADER_MAGIC == 0x52444852 && ReadLE(Image(fs), 4, 2) == |fs| % 0x1_0000
  {
    ImageLies(fs);
    assert RD_HEADER_MAGIC < U32 && 0 < U16;
    hide *;
    ReadExact(Image(fs), 0, RD_HEADER_MAGIC, 4, U32);
    ReadExact(Image(fs), 4, |fs| % U16, 2, U16);
  }

  lemma ReadExact(img: seq<Byte>, at: nat, n: nat, w: nat, limit: nat)
    requires Lies(img, at, LE(n, w)) && n < limit
    requires (w == 2 && limit == U16) || (w == 4 && limit == U32) || (w == 8 && limit == U64)
    ensures ReadLE(img, at, w) == n
  {
    assert Pow256(2) == U16 && Pow256(4) == 0x1_0000 * Pow256(2) && Pow256(8) == U32 * Pow256(4);
    assert Pow256(w) == limit;
    ReadBack(img, at, n, w);
    DivUnique(n, limit, 0, n);
  }

  /** The fields of file `i` as the kernel reads them: magic, size, and a name that ends at its NUL. */
  lemma FieldsRead(fs: seq<RdFile>, i: nat)
    requires i < |fs| && Storable(fs[i])
    ensures var img, at, f := Image(fs), Offset(fs, i), fs[i];
      && ReadLE(img, at, 4) == RD_FILE_MAGIC == 0x5244464C && ReadLE(img, at + 4, 8) == |f.data|
      && NameAt(img, at + 12, f.name)
  {
    var img, at, f := Image(fs), Offset(fs, i), fs[i];
    FileLies(fs, i);
    NameLies(img, at + 12, f.name);
    assert |f.data| < U64;
    hide *;
    ReadExact(img, at, RD_FILE_MAGIC, 4, U32);
    ReadExact(img, at + 4, |f.data|, 8, U64);
  }

  lemma NameLies(img: seq<Byte>, at: nat, name: seq<Byte>)
    requires Lies(img, at, name + [0])
    ensures NameAt(img, at, name)
  {}

  /** The C string at `at` is `name`. */
  ghost predicate NameAt(img: seq<Byte>, at: nat, name: seq<Byte>) {
    forall j :: 0 <= j <= |name| ==> At(img, at + j) == (name + [0])[j]
  }
}
