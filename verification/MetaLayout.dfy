/** Where each inode goes in the metadata area: a first-fit walk, and NIDs that name it. */
module MetaLayout {
  import opened Basics
  import opened Images

  /** The sizes `plan_body` worked out for one inode. */
  datatype InodeBody = InodeBody(bodySize: nat, xattrLen: nat, inlineLen: nat, chunkmapLen: nat, zmapLen: nat) {
    /** `body_span`. */
    function Span(): nat {
      bodySize + xattrLen + inlineLen + chunkmapLen + zmapLen
    }
    function Trailers(): nat {
      Span() - bodySize
    }
    /** An inode has a body, in the compact or the extended form. */
    predicate Valid() {
      bodySize == 32 || bodySize == 64
    }
  }

  datatype MetaSlot = MetaSlot(start: nat, span: nat) {
    /** `MetaSlot::nid`. */
    function Nid(): nat {
      start / EROFS_INODE_SLOT_SIZE
    }
    /** `MetaSlot::end`. */
    function End(): nat {
      start + span
    }
  }

  /** Places an inode may start: on a slot, and with its trailers inside one block if it can. */
  predicate Admissible(bs: nat, body: InodeBody, s: nat)
    requires bs > 0
  {
    && s % EROFS_INODE_SLOT_SIZE == 0
    && (body.Trailers() == 0 || s % bs + body.Span() <= bs || s % bs == 0)
  }

  /** The first of them at or behind `from`. */
  ghost predicate FirstFit(bs: nat, body: InodeBody, from: nat, s: nat)
    requires bs > 0
  {
    && from <= s && Admissible(bs, body, s)
    && forall other :: from <= other < s ==> !Admissible(bs, body, other)
  }

  function EndBefore(slots: seq<MetaSlot>, i: nat): nat
    requires i <= |slots|
  {
    if i == 0 then 0 else slots[i - 1].End()
  }

  lemma EndBeforeIs(slots: seq<MetaSlot>, i: nat)
    requires i <= |slots|
    ensures EndBefore(slots, i) == if i == 0 then 0 else slots[i - 1].End()
  {
  }

  lemma EndBeforeKept(slots: seq<MetaSlot>, s: MetaSlot, i: nat)
    requires i <= |slots|
    ensures EndBefore(slots + [s], i) == EndBefore(slots, i)
  {
  }

  /** Inode `i` takes the first place its predecessor leaves it. */
  ghost predicate SlotFits(bs: nat, bodies: seq<InodeBody>, slots: seq<MetaSlot>, i: nat)
    requires bs > 0
  {
    && i < |slots| && i < |bodies| && slots[i].span == bodies[i].Span()
    && FirstFit(bs, bodies[i], EndBefore(slots, i), slots[i].start)
  }

  ghost predicate IsLayout(bs: nat, bodies: seq<InodeBody>, slots: seq<MetaSlot>)
    requires bs > 0
  {
    |slots| == |bodies| && forall i :: 0 <= i < |slots| ==> SlotFits(bs, bodies, slots, i)
  }

  /** `plan_meta_layout`. Blocks are powers of two of at least 512 bytes, so whole slots. */
  method PlanMetaLayout(bodies: seq<InodeBody>, bs: nat) returns (slots: seq<MetaSlot>)
    requires bs > 0 && bs % EROFS_INODE_SLOT_SIZE == 0
    requires forall i :: 0 <= i < |bodies| ==> bodies[i].Valid()
    ensures IsLayout(bs, bodies, slots)
  {
    hide FirstFit, Admissible, DivCeil, EndBefore;
    slots := [];
    EndBeforeIs(slots, 0);
    var cursor: nat := 0;
    for i := 0 to |bodies|
      invariant |slots| == i && cursor == EndBefore(slots, i)
      invariant forall k :: 0 <= k < i ==> SlotFits(bs, bodies, slots, k)
    {
      ghost var from := cursor;
      cursor := DivCeil(cursor, EROFS_INODE_SLOT_SIZE) * EROFS_INODE_SLOT_SIZE;
      var span := bodies[i].Span();
      var trailers := span - bodies[i].bodySize;
      SlotFit(bs, bodies[i], from, cursor);
      if trailers > 0 && cursor % bs + span > bs {
        BlockFit(bs, bodies[i], from, cursor);
        cursor := DivCeil(cursor, bs) * bs;
      }
      ghost var before := slots;
      slots := slots + [MetaSlot(cursor, span)];
      cursor := cursor + span;
      EndBeforeIs(slots, i + 1);
      forall k | 0 <= k <= i
        ensures SlotFits(bs, bodies, slots, k)
      {
        EndBeforeKept(before, slots[i], k);
        assert k < i ==> SlotFits(bs, bodies, before, k);
      }
    }
  }

  /** Nothing between `from` and the next slot boundary starts a slot. */
  lemma NextSlot(from: nat, c: nat, other: nat)
    requires c == AlignUp(from, EROFS_INODE_SLOT_SIZE)
    ensures from <= c && c % EROFS_INODE_SLOT_SIZE == 0
    ensures from <= other < c ==> other % EROFS_INODE_SLOT_SIZE != 0
  {
  }

  lemma SlotFit(bs: nat, body: InodeBody, from: nat, c: nat)
    requires bs > 0 && c == AlignUp(from, EROFS_INODE_SLOT_SIZE)
    requires body.Valid()
    ensures !(body.Trailers() > 0 && c % bs + body.Span() > bs) ==> FirstFit(bs, body, from, c)
  {
    hide AlignUp, Admissible;
    NextSlot(from, c, from);
    forall other: nat | from <= other < c
      ensures !Admissible(bs, body, other)
    {
      NextSlot(from, c, other);
      OffSlot(bs, body, other);
    }
    OnSlot(bs, body, c);
  }

  lemma OffSlot(bs: nat, body: InodeBody, s: nat)
    requires bs > 0 && s % EROFS_INODE_SLOT_SIZE != 0
    ensures !Admissible(bs, body, s)
  {
  }

  lemma OnSlot(bs: nat, body: InodeBody, s: nat)
    requires bs > 0 && s % EROFS_INODE_SLOT_SIZE == 0 && body.Valid()
    ensures !(body.Trailers() > 0 && s % bs + body.Span() > bs) ==> Admissible(bs, body, s)
    ensures s % bs == 0 ==> Admissible(bs, body, s)
    ensures body.Trailers() > 0 && s % bs + body.Span() > bs && s % bs != 0 ==> !Admissible(bs, body, s)
  {
  }

  lemma BlockFit(bs: nat, body: InodeBody, from: nat, c: nat)
    requires bs > 0 && bs % EROFS_INODE_SLOT_SIZE == 0 && c == AlignUp(from, EROFS_INODE_SLOT_SIZE)
    requires body.Trailers() > 0 && c % bs + body.Span() > bs && body.Valid()
    ensures FirstFit(bs, body, from, DivCeil(c, bs) * bs)
  {
    hide AlignUp, DivCeil, Admissible;
    var k := DivCeil(c, bs);
    var s := k * bs;
    DivCeilBounds(c, bs);
    NextSlot(from, c, from);
    BlockStartsSlot(k, bs);
    DivModUnique(s, bs, k, 0);
    OnSlot(bs, body, s);
    forall other: nat | from <= other < s
      ensures !Admissible(bs, body, other)
    {
      NotBefore(bs, body, from, c, other);
    }
  }

  lemma NotBefore(bs: nat, body: InodeBody, from: nat, c: nat, other: nat)
    requires bs > 0 && c == AlignUp(from, EROFS_INODE_SLOT_SIZE) && from <= other < DivCeil(c, bs) * bs
    requires body.Trailers() > 0 && c % bs + body.Span() > bs && body.Valid()
    ensures !Admissible(bs, body, other)
  {
    hide AlignUp, DivCeil, Admissible;
    NextSlot(from, c, other);
    if other % EROFS_INODE_SLOT_SIZE != 0 {
      OffSlot(bs, body, other);
    } else {
      LaterInBlock(c, bs, DivCeil(c, bs), other);
      OnSlot(bs, body, other);
    }
  }

  lemma BlockStartsSlot(k: nat, bs: nat)
    requires bs % 32 == 0
    ensures k * bs % 32 == 0
  {
    var m := bs / 32;
    assert k * bs == 32 * (k * m);
  }

  /** Up to the next block boundary the offset within the block only grows, and is not 0. */
  lemma LaterInBlock(c: nat, bs: nat, k: nat, other: nat)
    requires bs > 0 && k == DivCeil(c, bs) && c <= other < k * bs
    ensures other % bs >= c % bs && other % bs != 0
  {
    hide DivCeil;
    DivCeilBounds(c, bs);
    var base := (k - 1) * bs;
    MulStep(k - 1, bs);
    DivModUnique(c, bs, k - 1, c - base);
    DivModUnique(other, bs, k - 1, other - base);
  }

  // ----- What first fit buys

  /** Slots are ordered and disjoint. */
  lemma {:induction false} SlotsDisjoint(bs: nat, bodies: seq<InodeBody>, slots: seq<MetaSlot>, i: nat, j: nat)
    requires bs > 0 && IsLayout(bs, bodies, slots) && i < j < |slots|
    ensures slots[i].End() <= slots[j].start
    decreases j
  {
    hide Admissible, EndBefore;
    assert SlotFits(bs, bodies, slots, j);
    EndBeforeIs(slots, j);
    if i < j - 1 {
      SlotsDisjoint(bs, bodies, slots, i, j - 1);
    }
  }

  /**
   NIDs are distinct, and each leads back to the address its inode is written to.
   */
  lemma NidsNameSlots(img: Image, bodies: seq<InodeBody>, slots: seq<MetaSlot>, i: nat, j: nat)
    requires IsLayout(img.BlockSize(), bodies, slots) && i < |slots| && j < |slots|
    requires forall k :: 0 <= k < |bodies| ==> bodies[k].Valid()
    ensures img.Iloc(slots[i].Nid()) == img.metaBlkaddr * img.BlockSize() + slots[i].start
    ensures i != j ==> slots[i].Nid() != slots[j].Nid()
  {
    hide Image.BlockSize;
    var bs := img.BlockSize();
    assert SlotFits(bs, bodies, slots, i);
    assert SlotFits(bs, bodies, slots, j);
    if i < j {
      SlotsDisjoint(bs, bodies, slots, i, j);
    } else if j < i {
      SlotsDisjoint(bs, bodies, slots, j, i);
    }
  }

  /** An inode with trailers that fits a block never crosses one. */
  lemma StaysInBlock(bs: nat, bodies: seq<InodeBody>, slots: seq<MetaSlot>, i: nat)
    requires bs > 0 && IsLayout(bs, bodies, slots) && i < |slots|
    requires bodies[i].Trailers() > 0 && bodies[i].Span() <= bs && bodies[i].Valid()
    ensures slots[i].start / bs == (slots[i].End() - 1) / bs
  {
    hide Admissible;
    var s := slots[i];
    assert SlotFits(bs, bodies, slots, i);
    InOneBlock(bs, bodies[i], s.start);
  }

  lemma InOneBlock(bs: nat, body: InodeBody, s: nat)
    requires bs > 0 && Admissible(bs, body, s) && body.Trailers() > 0 && body.Valid() && body.Span() <= bs
    ensures s / bs == (s + body.Span() - 1) / bs
  {
    hide Admissible;
    var span := body.Span();
    WithinBlock(bs, body, s);
    DivModUnique(s + span - 1, bs, s / bs, s % bs + span - 1);
  }

  lemma WithinBlock(bs: nat, body: InodeBody, s: nat)
    requires bs > 0 && Admissible(bs, body, s) && body.Trailers() > 0 && body.Span() <= bs
    ensures s % bs + body.Span() <= bs && s == s / bs * bs + s % bs
  {
  }

  lemma SameEnd(a: seq<MetaSlot>, b: seq<MetaSlot>, n: nat)
    requires n <= |a| && n <= |b| && a[..n] == b[..n]
    ensures EndBefore(a, n) == EndBefore(b, n)
  {
    if n > 0 {
      assert a[..n][n - 1] == b[..n][n - 1];
    }
  }

  /** And the layout is the only one of its kind. */
  lemma {:induction false} LayoutIsUnique(bs: nat, bodies: seq<InodeBody>, a: seq<MetaSlot>, b: seq<MetaSlot>, n: nat)
    requires bs > 0 && IsLayout(bs, bodies, a) && IsLayout(bs, bodies, b) && n <= |bodies|
    ensures a[..n] == b[..n]
    decreases n
  {
    hide Admissible, EndBefore;
    if n > 0 {
      LayoutIsUnique(bs, bodies, a, b, n - 1);
      SameEnd(a, b, n - 1);
      assert SlotFits(bs, bodies, a, n - 1);
      assert SlotFits(bs, bodies, b, n - 1);
      assert a[..n] == a[..n - 1] + [a[n - 1]] && b[..n] == b[..n - 1] + [b[n - 1]];
    }
  }
}
