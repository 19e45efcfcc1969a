/**
  What backs a page that a task never wrote: a page of its executable, cut off at the
  end of initialised data, a page of its library, or zeroes.
 */
module Program {
  import opened Common
  import opened AddressSpace

  const PAGE_SIZE: nat := 4096
  const BLOCK_SIZE: nat := 1024

  /** LIBRARY_OFFSET is 60 Mb: the last of the sixteen page tables of a task. */
  const LIBRARY_DIR: nat := 15

  /** An executable or library file; a block that is missing is a hole. */
  datatype Image = Image(blocks: map<nat, seq<int>>, endData: nat)

  /** The inode numbers of a task's executable and library. */
  datatype Prog = Prog(exe: Option<nat>, lib: Option<nat>)

  function BlockByte(img: Image, b: nat, o: nat): int {
    if b in img.blocks && o < |img.blocks[b]| then img.blocks[b][o] else 0
  }

  /** Byte a of the program text and data: block 0 of the file is its header. */
  function ByteAt(img: Image, a: nat): int {
    BlockByte(img, 1 + a / BLOCK_SIZE, a % BLOCK_SIZE)
  }

  function ZeroPage(): Page { seq(PAGE_SIZE, i => 0) }

  function ExePage(img: Image, base: nat): Page {
    seq(PAGE_SIZE, (i: nat) => if base + i < img.endData then ByteAt(img, base + i) else 0)
  }

  function LibPage(img: Image, base: nat): Page {
    seq(PAGE_SIZE, (i: nat) => ByteAt(img, base + i))
  }

  function Offset(k: nat, j: nat): nat { (k * ENTRIES + j) * PAGE_SIZE }

  function ProgPage(files: map<nat, Image>, p: Prog, k: nat, j: nat): Page {
    if k >= LIBRARY_DIR then
      if p.lib.Some? && p.lib.value in files then LibPage(files[p.lib.value], Offset(k - LIBRARY_DIR, j))
      else ZeroPage()
    else if p.exe.Some? && p.exe.value in files && Offset(k, j) < files[p.exe.value].endData then
      ExePage(files[p.exe.value], Offset(k, j))
    else ZeroPage()
  }

  // ----- The file as a row of bytes

  function WholeBlock(img: Image, b: nat): (block: seq<int>)
    ensures |block| == 1024
  {
    seq(1024, o => if b in img.blocks && 0 <= o < |img.blocks[b]| then img.blocks[b][o] else 0)
  }

  /** The first n blocks of the file, one after another; what is missing is zero. */
  function Bytes(img: Image, n: nat): (bytes: seq<int>)
    ensures |bytes| == n * 1024
  {
    if n == 0 then [] else Bytes(img, n - 1) + WholeBlock(img, n - 1)
  }

  lemma {:induction false} BytesAre(img: Image, n: nat, q: nat)
    requires q < n * 1024
    ensures Bytes(img, n)[q] == BlockByte(img, q / BLOCK_SIZE, q % BLOCK_SIZE)
  {
    if q < (n - 1) * 1024 {
      BytesAre(img, n - 1, q);
    } else {
      assert q / BLOCK_SIZE == n - 1 && q % BLOCK_SIZE == q - (n - 1) * 1024;
    }
  }

  /** The program starts behind the 1024 bytes of the header. */
  lemma ByteIs(img: Image, n: nat, a: nat)
    requires 1024 + a < n * 1024
    ensures ByteAt(img, a) == Bytes(img, n)[1024 + a]
  {
    BytesAre(img, n, 1024 + a);
    assert (1024 + a) / BLOCK_SIZE == 1 + a / BLOCK_SIZE && (1024 + a) % BLOCK_SIZE == a % BLOCK_SIZE;
  }

  /** A page of a program: the bytes of its file behind the header, and zeroes past the end of data. */
  lemma ExecutableByte(files: map<nat, Image>, p: Prog, k: nat, j: nat, o: nat, n: nat)
    requires k < 15 && p.exe.Some? && p.exe.value in files && o < 4096 && 1024 + (k * 1024 + j) * 4096 + o < n * 1024
    ensures var img, a := files[p.exe.value], (k * 1024 + j) * 4096 + o;
            |ProgPage(files, p, k, j)| == 4096
              && ProgPage(files, p, k, j)[o] == if a < img.endData then Bytes(img, n)[1024 + a] else 0
  {
    ByteIs(files[p.exe.value], n, Offset(k, j) + o);
    hide ByteAt, Bytes;
  }

  /** A page of a library is not cut off. */
  lemma LibraryByte(files: map<nat, Image>, p: Prog, k: nat, j: nat, o: nat, n: nat)
    requires k >= 15 && p.lib.Some? && p.lib.value in files && o < 4096
    requires 1024 + ((k - 15) * 1024 + j) * 4096 + o < n * 1024
    ensures |ProgPage(files, p, k, j)| == 4096
    ensures ProgPage(files, p, k, j)[o] == Bytes(files[p.lib.value], n)[1024 + ((k - 15) * 1024 + j) * 4096 + o]
  {
    ByteIs(files[p.lib.value], n, Offset(k - 15, j) + o);
    hide ByteAt, Bytes;
  }

  /** Without a file a page is zero. */
  lemma EmptyByte(files: map<nat, Image>, p: Prog, k: nat, j: nat, o: nat)
    requires (if k >= 15 then p.lib.None? else p.exe.None?) && o < 4096
    ensures |ProgPage(files, p, k, j)| == 4096 && ProgPage(files, p, k, j)[o] == 0
  {
  }

  /** The page holds the n-th 4096 bytes of the file behind its header; past the end of data it may be cut off. */
  ghost predicate HoldsPage(page: Page, img: Image, n: nat, cut: bool) {
    && |page| == 4096
    && forall o :: 0 <= o < 4096 ==>
         page[o] == if cut && n * 4096 + o >= img.endData then 0 else Bytes(img, 4 * n + 5)[1024 + n * 4096 + o]
  }

  /** Page j of table k of a task that runs a file, or uses a library, in the last of the sixteen tables. */
  lemma ProgramHolds(files: map<nat, Image>, p: Prog, k: nat, j: nat)
    ensures k < 15 && p.exe.Some? && p.exe.value in files ==>
              HoldsPage(ProgPage(files, p, k, j), files[p.exe.value], k * 1024 + j, true)
    ensures k >= 15 && p.lib.Some? && p.lib.value in files ==>
              HoldsPage(ProgPage(files, p, k, j), files[p.lib.value], (k - 15) * 1024 + j, false)
    ensures (if k >= 15 then p.lib.None? else p.exe.None?) ==>
              ProgPage(files, p, k, j) == seq(4096, o => 0)
  {
    hide ProgPage, Bytes;
    if k < 15 && p.exe.Some? && p.exe.value in files {
      ExecutableByte(files, p, k, j, 0, 4 * (k * 1024 + j) + 5);
      forall o: nat | o < 4096 ensures ProgPage(files, p, k, j)[o] ==
        if (k * 1024 + j) * 4096 + o >= files[p.exe.value].endData then 0
        else Bytes(files[p.exe.value], 4 * (k * 1024 + j) + 5)[1024 + (k * 1024 + j) * 4096 + o] {
        ExecutableByte(files, p, k, j, o, 4 * (k * 1024 + j) + 5);
      }
    } else if k >= 15 && p.lib.Some? && p.lib.value in files {
      LibraryByte(files, p, k, j, 0, 4 * ((k - 15) * 1024 + j) + 5);
      forall o: nat | o < 4096 ensures ProgPage(files, p, k, j)[o] ==
        Bytes(files[p.lib.value], 4 * ((k - 15) * 1024 + j) + 5)[1024 + ((k - 15) * 1024 + j) * 4096 + o] {
        LibraryByte(files, p, k, j, o, 4 * ((k - 15) * 1024 + j) + 5);
      }
    } else if if k >= 15 then p.lib.None? else p.exe.None? {
      EmptyByte(files, p, k, j, 0);
      forall o: nat | o < 4096 ensures ProgPage(files, p, k, j)[o] == 0 { EmptyByte(files, p, k, j, o); }
    }
  }

  /** The images differ in their headers only. */
  ghost predicate SameBody(a: Image, b: Image) {
    a.endData == b.endData && forall n: nat :: n > 0 ==>
      (n in a.blocks <==> n in b.blocks) && (n in a.blocks ==> a.blocks[n] == b.blocks[n])
  }

  /** What is in the header of a file is in no page. */
  lemma HeaderUnseen(files: map<nat, Image>, files': map<nat, Image>, p: Prog, k: nat, j: nat)
    requires files'.Keys == files.Keys && forall i :: i in files ==> SameBody(files[i], files'[i])
    ensures ProgPage(files', p, k, j) == ProgPage(files, p, k, j)
  {
    forall i, a: nat | i in files ensures ByteAt(files'[i], a) == ByteAt(files[i], a) {
      assert SameBody(files[i], files'[i]);
    }
    hide ByteAt;
    assert |ProgPage(files', p, k, j)| == |ProgPage(files, p, k, j)|;
  }

  lemma BlockSplit(base: nat, o: nat)
    requires base % BLOCK_SIZE == 0
    ensures (base + o) / BLOCK_SIZE == base / BLOCK_SIZE + o / BLOCK_SIZE
    ensures (base + o) % BLOCK_SIZE == o % BLOCK_SIZE
  {
  }

  // ----- Loading a page

  /** bread_page: four blocks, starting at block b, fill a zeroed page; holes stay zero. */
  method BreadPage(img: Image, b: nat) returns (page: array<int>)
    ensures fresh(page) && page.Length == PAGE_SIZE
    ensures forall i :: 0 <= i < PAGE_SIZE ==> page[i] == BlockByte(img, b + i / BLOCK_SIZE, i % BLOCK_SIZE)
  {
    page := new int[PAGE_SIZE](i => 0);
    for n := 0 to 4
      invariant forall i :: 0 <= i < n * BLOCK_SIZE ==> page[i] == BlockByte(img, b + i / BLOCK_SIZE, i % BLOCK_SIZE)
      invariant forall i :: n * BLOCK_SIZE <= i < PAGE_SIZE ==> page[i] == 0
    {
      if b + n in img.blocks {
        for o := 0 to BLOCK_SIZE
          invariant forall i :: 0 <= i < n * BLOCK_SIZE + o ==>
                    page[i] == BlockByte(img, b + i / BLOCK_SIZE, i % BLOCK_SIZE)
          invariant forall i :: n * BLOCK_SIZE + o <= i < PAGE_SIZE ==> page[i] == 0
        {
          page[n * BLOCK_SIZE + o] := BlockByte(img, b + n, o);
        }
      }
    }
  }

  /**
    The load of do_no_page: four blocks of the file are read, and the bytes of the page
    at address tmp that lie past the end of data are cleared from the top down, unless
    more than a page would be.
   */
  method LoadPage(img: Image, base: nat, tmp: nat, endData: nat) returns (page: Page)
    requires base % BLOCK_SIZE == 0
    ensures |page| == PAGE_SIZE
    ensures forall o :: 0 <= o < PAGE_SIZE ==>
              page[o] == if tmp >= endData || tmp + o < endData then ByteAt(img, base + o) else 0
    ensures forall o :: 0 <= o < PAGE_SIZE && (tmp >= endData || tmp + o < endData) ==>
              page[o] == Bytes(img, base / 1024 + 5)[1024 + base + o]
  {
    hide Bytes;
    var a := BreadPage(img, 1 + base / BLOCK_SIZE);
    forall o | 0 <= o < PAGE_SIZE ensures a[o] == ByteAt(img, base + o) { BlockSplit(base, o); }
    var i := tmp + PAGE_SIZE - endData;
    if i > PAGE_SIZE - 1 { i := 0; }
    var top := PAGE_SIZE;
    ghost var kept := if i > 0 then endData - tmp else PAGE_SIZE;
    while i > 0
      invariant i > 0 ==> top - i == kept
      invariant i <= 0 ==> top == kept
      invariant 0 <= top <= PAGE_SIZE
      invariant forall o :: 0 <= o < top ==> a[o] == ByteAt(img, base + o)
      invariant forall o :: top <= o < PAGE_SIZE ==> a[o] == 0
    {
      i := i - 1;
      top := top - 1;
      a[top] := 0;
    }
    page := a[..];
    forall o | 0 <= o < PAGE_SIZE && (tmp >= endData || tmp + o < endData)
      ensures page[o] == Bytes(img, base / 1024 + 5)[1024 + base + o] {
      ByteIs(img, base / 1024 + 5, base + o);
    }
  }
}
