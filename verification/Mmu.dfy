/** What the processor makes of a directory and its tables (i386, with CR0.WP clear as
    kernel/init/page.asm:26-28 leaves it). */
module Mmu {
  import opened Frames
  import opened Paging
  import opened Wrappers

  datatype Access = Access(user: bool, write: bool)

  /** Bits PG_P and PG_USU of an entry. */
  predicate Present(entry: Word) {
    entry % 2 == 1
  }

  predicate User(entry: Word) {
    (entry / 4) % 2 == 1
  }

  /** Write protection holds for user programs only. */
  predicate Lets(entry: Word, acc: Access) {
    Present(entry) && (acc.user ==> User(entry) && (acc.write ==> Writable(entry)))
  }

  /** The physical address of a virtual one, or a fault. */
  function Translate(ram: seq<Frame>, dir: nat, va: nat, acc: Access): Option<nat>
    requires va < 0x1_0000_0000
  {
    var pde := Peek(ram, dir, va / 0x40_0000);
    if !Lets(pde, acc) then None else
      var pte := Peek(ram, FrameOf(pde), va / 4096 % 1024);
      if !Lets(pte, acc) then None else Some(4096 * FrameOf(pte) + va % 4096)
  }

  /** The bits of an entry that the kernel makes of a frame and attributes. */
  lemma EntryBits(f: nat, attr: nat, p: Word)
    requires p == f * 4096 + attr && f < MAX_FRAMES && (attr == USER_RW || attr == KERNEL_RW)
    ensures FrameOf(p) == f && Present(p) && Writable(p) && (User(p) <==> attr == USER_RW)
  {
    var q := f * 1024;
    assert p / 4 == q + attr / 4 && p / 2 == 2 * q + attr / 2;
  }

  /** Write-protecting an entry leaves its other bits. */
  lemma ProtectBits(p: Word)
    requires p != PG_RWW
    ensures FrameOf(Protect(p)) == FrameOf(p) && !Writable(Protect(p)) && (Protect(p) == 0 <==> p == 0)
    ensures (Present(Protect(p)) <==> Present(p)) && (User(Protect(p)) <==> User(p))
  {
    var q, r := p / 4, p % 4;
    FourBits(p, q, r);
    if r >= 2 { FourBits(p - 2, q, r - 2); }
  }

  lemma FourBits(p: Word, q: nat, r: nat)
    requires p == 4 * q + r && r < 4
    ensures FrameOf(p) == q / 1024 && (Writable(p) <==> r >= 2)
    ensures (Present(p) <==> r % 2 == 1) && (User(p) <==> q % 2 == 1)
  {
    assert p / 2 == 2 * q + r / 2;
  }
}
