// The 32-bit words of sce_internal.h: fragment descriptors and physical fragment ids.

module Words {
  const DATASPACE: nat := 0x1000_0000 // 28 data bits of a descriptor
  const OFFSPACE: nat := 0x100_0000 // 24 offset bits of a physical fragment id
  const DEVSPACE: nat := 16 // 4 device bits of a physical fragment id
  const WORDSPACE: nat := 0x1_0000_0000

  type Data = d: nat | d < 0x1000_0000
  type Bits2 = r: nat | r < 4
  type Uint32 = u: nat | u < 0x1_0000_0000

  /** A fragment descriptor, or a link of the free list, split into its bit fields. */
  datatype Word = Word(mapped: bool, valid: bool, reserved: Bits2, data: Data)

  const ZERO: Word := Word(false, false, 0, 0)

  /** The entry every fragment map starts with: all bytes 0x55. */
  const FRESH: Word := Word(false, true, 1, 0x555_5555)

  function Bit(b: bool): nat { if b then 1 else 0 }

  /** The four flag bits as a number. */
  function Flags(w: Word): (g: nat)
    ensures g < 16
  {
    Bit(w.mapped) * 8 + Bit(w.valid) * 4 + w.reserved
  }

  function Pack(w: Word): (u: Uint32) {
    Flags(w) * 0x1000_0000 + w.data
  }

  function Unpack(u: Uint32): Word {
    var g := u / 0x1000_0000;
    Word(g / 8 == 1, g / 4 % 2 == 1, g % 4, u % 0x1000_0000)
  }

  /** FRAGDESC_INC on the bit fields. */
  function Inc(w: Word): Word {
    w.(data := (w.data + 1) % DATASPACE)
  }

  /** FRAGDESC_INC on the raw word; masking with the low 28 bits is a remainder. */
  function IncRaw(u: Uint32): nat {
    u / DATASPACE * DATASPACE + (u % DATASPACE + 1) % DATASPACE
  }

  /** The descriptor that only keeps a miss count. */
  function Heat(nrMiss: nat): Word {
    Word(false, false, 0, nrMiss % DATASPACE)
  }

  function Dev(p: nat): nat { p / OFFSPACE }

  function Off(p: nat): nat { p % OFFSPACE }

  /** SCE_PFID: both parts are masked to their width. */
  function Pfid(dev: nat, off: nat): (p: nat)
    ensures p < DATASPACE
    ensures Dev(p) == dev % DEVSPACE && Off(p) == off % OFFSPACE
  {
    dev % DEVSPACE * OFFSPACE + off % OFFSPACE
  }

  lemma SplitWord(u: nat, flags: nat, data: nat)
    requires data < 0x1000_0000 && u == flags * 0x1000_0000 + data
    ensures u / 0x1000_0000 == flags && u % 0x1000_0000 == data
  {
  }

  lemma SplitFlags(g: nat)
    requires g < 16
    ensures Flags(Word(g / 8 == 1, g / 4 % 2 == 1, g % 4, 0)) == g
  {
  }

  lemma FlagsSplit(w: Word)
    ensures Flags(w) / 8 == Bit(w.mapped) && Flags(w) / 4 % 2 == Bit(w.valid) && Flags(w) % 4 == w.reserved
  {
  }

  /** Nothing of a descriptor is lost in its packed word; only ZERO is the null link. */
  lemma UnpackPack(w: Word)
    ensures Unpack(Pack(w)) == w
    ensures Pack(w) == 0 <==> w == ZERO
  {
    SplitWord(Pack(w), Flags(w), w.data);
    FlagsSplit(w);
  }

  /** Every 32-bit word is the packing of exactly its bit fields. */
  lemma PackUnpack(u: Uint32)
    ensures Pack(Unpack(u)) == u
    ensures u == 0x5555_5555 ==> Unpack(u) == FRESH
  {
    SplitFlags(u / 0x1000_0000);
  }

  /** Counting a miss on the packed word leaves the four flag bits alone, even when the count wraps. */
  lemma IncAgrees(w: Word)
    ensures IncRaw(Pack(w)) == Pack(Inc(w))
  {
    SplitWord(Pack(w), Flags(w), w.data);
  }

  /** A physical fragment id below 2^28 is recovered from its device and offset. */
  lemma PfidSplits(p: nat)
    requires p < DATASPACE
    ensures Dev(p) < DEVSPACE && Off(p) < OFFSPACE
    ensures Pfid(Dev(p), Off(p)) == p
  {
  }
}
