/** What user programs may rely on: memory without sharing.  A process is an image of its own;
    fork copies the image at once, and heap pages exist, filled with zeros, as soon as brk
    includes them. */
module VmSpec {
  import opened VmState

  const USER_START: nat := 0x4000_0000
  const USER_END: nat := 0xC000_0000
  const HEAP_START: nat := 0x9000_0000
  const HEAP_LIMIT: nat := 0xA000_0000
  const STACK_BOTTOM: nat := 0xB000_0000 - 0x1000
  const GUARD_BOTTOM: nat := 0xB000_0000 - 0x2000
  /** The user pages and the heap pages, by number. */
  const FIRST_PAGE: nat := 0x40000
  const LAST_PAGE: nat := 0xC0000
  const HEAP_FIRST: nat := 0x90000
  const HEAP_LAST: nat := 0xA0000

  /** The page of the user stack, and the page below it, which nobody is ever given. */
  const STACK_PAGE: nat := 0xAFFFF
  const GUARD_PAGE: nat := 0xAFFFE

  function PageNumber(addr: nat): nat { addr / 4096 }

  function PageOffset(addr: nat): (k: nat)
    ensures k < PAGE_SIZE
  {
    addr % 4096
  }

  lemma PageNumberMonotone(a: nat, b: nat)
    requires a <= b
    ensures PageNumber(a) <= PageNumber(b)
  {
  }

  datatype Access = NoAccess | ReadOnly | ReadWrite

  datatype Image = Image(mem: map<nat, Page>, grant: map<nat, Access>, heapEnd: nat)

  predicate UserPage(v: nat) { FIRST_PAGE <= v < LAST_PAGE }

  predicate HeapPage(v: nat) { HEAP_FIRST <= v < HEAP_LAST }

  /** The pages of a program: those its segments may lie in, and its stack. */
  predicate ImagePage(v: nat) { FIRST_PAGE <= v < HEAP_FIRST || v == STACK_PAGE }

  /** The number of the first page that the heap does not reach. */
  function EndPage(heapEnd: nat): nat { (heapEnd + 4095) / 4096 }

  ghost predicate WellFormed(im: Image) {
    && (forall v: nat :: v in im.mem <==> UserPage(v))
    && (forall v: nat :: v in im.grant <==> UserPage(v))
  }

  ghost predicate MayRead(im: Image, addr: nat) {
    PageNumber(addr) in im.mem && PageNumber(addr) in im.grant && im.grant[PageNumber(addr)] != NoAccess
  }

  ghost predicate MayWrite(im: Image, addr: nat) {
    PageNumber(addr) in im.mem && PageNumber(addr) in im.grant && im.grant[PageNumber(addr)] == ReadWrite
  }

  ghost function Peek(im: Image, addr: nat): Byte
    requires MayRead(im, addr)
  {
    im.mem[PageNumber(addr)][PageOffset(addr)]
  }

  ghost function Poke(im: Image, addr: nat, b: Byte): Image
    requires MayWrite(im, addr)
  {
    Image(im.mem[PageNumber(addr) := im.mem[PageNumber(addr)][PageOffset(addr) := b]], im.grant, im.heapEnd)
  }

  ghost predicate MayWriteAll(im: Image, addr: nat, size: nat) {
    forall a: nat :: addr <= a < addr + size ==> MayWrite(im, a)
  }

  /** Bytes stored at consecutive addresses. */
  ghost function PokeAll(im: Image, addr: nat, data: seq<Byte>): (r: Image)
    requires MayWriteAll(im, addr, |data|)
    ensures r.grant == im.grant && r.mem.Keys == im.mem.Keys && r.heapEnd == im.heapEnd
    decreases |data|
  {
    if data == [] then im
    else
      assert MayWrite(im, addr + |data| - 1);
      Poke(PokeAll(im, addr, data[..|data| - 1]), addr + |data| - 1, data[|data| - 1])
  }

  lemma UpdateTwice(ims: map<nat, Image>, pid: nat, a: Image, b: Image)
    ensures ims[pid := a][pid := b] == ims[pid := b]
  {
  }

  lemma PokeNothing(im: Image, addr: nat, data: seq<Byte>)
    requires data == []
    ensures MayWriteAll(im, addr, |data|) && PokeAll(im, addr, data) == im
  {
  }

  lemma PokeAllStep(im: Image, addr: nat, data: seq<Byte>, k: nat)
    requires MayWriteAll(im, addr, |data|) && k < |data|
    ensures MayWrite(PokeAll(im, addr, data[..k]), addr + k)
    ensures PokeAll(im, addr, data[..k + 1]) == Poke(PokeAll(im, addr, data[..k]), addr + k, data[k])
  {
    assert MayWrite(im, addr + k);
    assert data[..k + 1][..k] == data[..k];
  }

  /** brk: the heap ends at `end`; pages past it are dropped, pages before it exist. */
  ghost function Resized(im: Image, end: nat): Image
    requires WellFormed(im)
  {
    Image(map v: nat | v in im.mem :: if HeapPage(v) && v >= EndPage(end) then ZeroPage() else im.mem[v],
          map v: nat | v in im.grant ::
            if HeapPage(v) then (if v < EndPage(end) then ReadWrite else NoAccess) else im.grant[v],
          end)
  }

  /** A page of the program image or the stack appears. */
  ghost function Installed(im: Image, v: nat, bytes: Page, writable: bool): Image {
    Image(im.mem[v := bytes], im.grant[v := if writable then ReadWrite else ReadOnly], im.heapEnd)
  }

  /** A page outside the heap is gone. */
  ghost function Removed(im: Image, v: nat): Image {
    Image(im.mem[v := ZeroPage()], im.grant[v := NoAccess], im.heapEnd)
  }

  /** Taking an installed page out again leaves the image as it was. */
  lemma RemoveUndoesInstall(im: Image, v: nat, bytes: Page, writable: bool)
    requires v in im.mem && v in im.grant && im.grant[v] == NoAccess && im.mem[v] == ZeroPage()
    ensures Removed(Installed(im, v, bytes, writable), v) == im
  {
  }

  /** The image of a space without user mappings. */
  ghost function EmptyImage(): Image {
    Image(map v: nat | FIRST_PAGE <= v < LAST_PAGE && UserPage(v) :: ZeroPage(),
          map v: nat | FIRST_PAGE <= v < LAST_PAGE && UserPage(v) :: NoAccess,
          HEAP_START)
  }
}
