/** Page-table entries of long-mode translation: their flag bits, the frame address they hold,
    and the way `mprotect_page` rewrites one. */
module PageEntry {
  import opened Words

  const PGSIZE: int := 0x1000
  const PTE_P: u64 := 0x001
  const PTE_W: u64 := 0x002

  predicate Present(e: u64) { e % 2 == 1 }
  predicate Writable(e: u64) { e / 2 % 2 == 1 }
  predicate LargePage(e: u64) { e / 0x80 % 2 == 1 }

  /** Bits 12 to 47 of an entry, as a number. */
  function FrameNumber(e: u64): (n: nat)
    ensures n < 0x10_0000_0000
  {
    e / 0x1000 % 0x10_0000_0000
  }

  /** Bits 12 to 47 of an entry, in place. */
  function PteAddr(e: u64): (a: u64)
    ensures a % 0x1000 == 0 && a < 0x1_0000_0000_0000
  {
    FrameNumber(e) * 0x1000
  }

  /** What `mprotect_page` stores: the old frame address OR-ed with the new flags. */
  function Rewrite(e: u64, flags: u64): (r: u64)
  {
    BitOrFits(PteAddr(e), flags);
    BitOr(PteAddr(e), flags)
  }

  lemma OrLow(em: nat, f: nat, fl: nat)
    requires fl < 0x1000
    ensures BitOr(em * 0x1000, f * 0x1000 + fl) == BitOr(em, f) * 0x1000 + fl
  {
    ShlValue(1);
    ShlValue(em);
    ShlValue(f);
    ShlValue(BitOr(em, f));
    BitOrSplit(em, 0, f, fl, 12);
  }

  lemma OrMiddle(em: nat, fh: nat, fm: nat)
    requires em < 0x10_0000_0000 && fm < 0x10_0000_0000
    ensures BitOr(em, fm) < 0x10_0000_0000
    ensures BitOr(em, fh * 0x10_0000_0000 + fm) == fh * 0x10_0000_0000 + BitOr(em, fm)
  {
    ShlValue(1);
    ShlValue(0);
    ShlValue(fh);
    BitOrSplit(0, em, fh, fm, 36);
  }

  /** Field by field: every bit outside 12..47 comes from `flags` alone, whatever the old entry
      held there; bits 12..47 are the OR of both. */
  lemma RewriteFields(e: u64, flags: u64)
    ensures Rewrite(e, flags) % 0x1000 == flags % 0x1000
    ensures Rewrite(e, flags) / 0x1_0000_0000_0000 == flags / 0x1_0000_0000_0000
    ensures FrameNumber(Rewrite(e, flags)) == BitOr(FrameNumber(e), FrameNumber(flags))
  {
    var em, fm, fh, fl := FrameNumber(e), FrameNumber(flags), flags / 0x1_0000_0000_0000, flags % 0x1000;
    SplitWord(flags);
    OrLow(em, fh * 0x10_0000_0000 + fm, fl);
    OrMiddle(em, fh, fm);
    RewriteParts(Rewrite(e, flags), fh, BitOr(em, fm), fl);
  }

  lemma SplitWord(w: u64)
    ensures w == (w / 0x1_0000_0000_0000 * 0x10_0000_0000 + FrameNumber(w)) * 0x1000 + w % 0x1000
  {
    assert w / 0x1000 / 0x10_0000_0000 == w / 0x1_0000_0000_0000;
  }

  lemma RewriteParts(r: u64, h: nat, m: nat, l: nat)
    requires m < 0x10_0000_0000 && l < 0x1000
    requires r == (h * 0x10_0000_0000 + m) * 0x1000 + l
    ensures r % 0x1000 == l && r / 0x1_0000_0000_0000 == h && FrameNumber(r) == m
  {
    assert r / 0x1000 == h * 0x10_0000_0000 + m;
  }

  /** Two words with the same fields are the same word. */
  lemma SameFields(x: u64, y: u64)
    requires x % 0x1000 == y % 0x1000 && FrameNumber(x) == FrameNumber(y)
    requires x / 0x1_0000_0000_0000 == y / 0x1_0000_0000_0000
    ensures x == y
  {
    assert x / 0x1000 / 0x10_0000_0000 == x / 0x1_0000_0000_0000;
    assert y / 0x1000 / 0x10_0000_0000 == y / 0x1_0000_0000_0000;
  }

  /** Protecting a page twice with the same flags is protecting it once. */
  lemma RewriteIdempotent(e: u64, flags: u64)
    ensures Rewrite(Rewrite(e, flags), flags) == Rewrite(e, flags)
  {
    RewriteFields(e, flags);
    RewriteFields(Rewrite(e, flags), flags);
    BitOrAbsorb(FrameNumber(e), FrameNumber(flags));
    SameFields(Rewrite(Rewrite(e, flags), flags), Rewrite(e, flags));
  }

  lemma RewriteFrameNumber(e: u64, flags: u64)
    ensures FrameNumber(flags) == 0 ==> FrameNumber(Rewrite(e, flags)) == FrameNumber(e)
    ensures FrameNumber(e) == 0 ==> FrameNumber(Rewrite(e, flags)) == FrameNumber(flags)
  {
    RewriteFields(e, flags);
  }

  /** The rewrite keeps the frame of every entry exactly when the flags carry no address bits. */
  lemma RewriteKeepsFrame(flags: u64)
    ensures (forall e: u64 :: FrameNumber(Rewrite(e, flags)) == FrameNumber(e)) <==> FrameNumber(flags) == 0
  {
    hide FrameNumber, Rewrite;
    forall e: u64 ensures FrameNumber(flags) == 0 ==> FrameNumber(Rewrite(e, flags)) == FrameNumber(e) {
      RewriteFrameNumber(e, flags);
    }
    RewriteFrameNumber(0, flags);
    ZeroFrame();
    assert FrameNumber(Rewrite(0, flags)) == FrameNumber(flags);
  }

  lemma ZeroFrame()
    ensures FrameNumber(0) == 0
  {
  }

  /** With flags below the address bits the stored entry is the old frame and the flags, as a number. */
  lemma RewriteValue(e: u64, flags: u64)
    requires flags < 0x1000
    ensures Rewrite(e, flags) == FrameNumber(e) * 0x1000 + flags
  {
    var r := Rewrite(e, flags);
    SmallFrame(flags);
    hide Rewrite, FrameNumber;
    RewriteFields(e, flags);
    RewriteFrameNumber(e, flags);
    FramesOf(r);
  }

  lemma SmallFrame(flags: u64)
    requires flags < 0x1000
    ensures FrameNumber(flags) == 0 && flags % 0x1000 == flags && flags / 0x1_0000_0000_0000 == 0
  {
  }

  lemma FramesOf(r: u64)
    requires r / 0x1_0000_0000_0000 == 0
    ensures r == FrameNumber(r) * 0x1000 + r % 0x1000
  {
    SplitWord(r);
  }
}
