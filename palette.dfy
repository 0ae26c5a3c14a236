/**
  The 16-slot colour palette of TGA_File (tga2sms.cpp), as a sequence of WORD
  slots. A slot of 0 is free; a taken slot holds 0x100 | c for its colour c
  (the ninth bit marks it taken). This module gives the meaning of the
  palette operations on slot sequences; the class TgaFile runs them in place
  on its array.
*/
module Palette {
  import opened Bytes

  const MaxColors := 16
  const TakenBit := 0x100

  /** The colour of a slot, ignoring the ninth bit (the COLOR_PALETTE macro, slot & 0xff). */
  function SlotColour(s: Word): Byte {
    s % 0x100
  }

  /** The value a slot takes when colour c is assigned to it (0x100 | c). */
  function TakenSlot(c: Byte): (s: Word)
    ensures s != 0 && SlotColour(s) == c
  {
    TakenBit + c
  }

  /** TakenSlot is the source's 0x100 | c on a WORD (the two fields do not overlap). */
  lemma TakenSlotIsBitwise(c: bv8)
    ensures TakenSlot(c as int) == ((0x100 as bv16) | (c as bv16)) as int
  {
  }

  lemma WidenByte(c: bv8)
    ensures (c as bv16) as int == c as int
  {
  }

  /** On every slot value the palette holds, SlotColour is the source's mask with 0xff. */
  lemma SlotColourIsBitwise(c: bv8)
    ensures SlotColour(0) == ((0 as bv16) & 0xff) as int
    ensures var s: bv16 := (0x100 as bv16) | (c as bv16); SlotColour(s as int) == (s & 0xff) as int
  {
    var s: bv16 := (0x100 as bv16) | (c as bv16);
    assert s & 0xff == c as bv16;
    WidenByte(c);
    TakenSlotIsBitwise(c);
  }

  /** isColorIndexed: some taken slot holds colour c. */
  predicate Indexed(slots: seq<Word>, c: Byte) {
    exists i :: 0 <= i < |slots| && slots[i] != 0 && SlotColour(slots[i]) == c
  }

  /** The lowest free slot, or |slots| when every slot is taken. */
  function FirstFree(slots: seq<Word>): (i: nat)
    ensures i <= |slots|
    ensures i < |slots| ==> slots[i] == 0
    ensures forall j :: 0 <= j < i ==> slots[j] != 0
  {
    if slots == [] then 0
    else if slots[0] == 0 then 0
    else 1 + FirstFree(slots[1..])
  }

  /**
    assignIndex: a colour already present, or a full palette, leaves the
    slots alone and yields false; otherwise the lowest free slot takes c.
  */
  function Assign(slots: seq<Word>, c: Byte): (seq<Word>, bool) {
    if Indexed(slots, c) then (slots, false)
    else
      var i := FirstFree(slots);
      if i == |slots| then (slots, false)
      else (slots[i := TakenSlot(c)], true)
  }

  /**
    What assignIndex promises: it reports true exactly when c was absent and a
    free slot existed; then the lowest free slot, and only it, becomes
    0x100 | c. Otherwise nothing changes.
  */
  lemma AssignOutcome(slots: seq<Word>, c: Byte)
    ensures var (after, added) := Assign(slots, c);
      && |after| == |slots|
      && (added <==> !Indexed(slots, c) && exists i :: 0 <= i < |slots| && slots[i] == 0)
      && (added ==> exists k ::
            && 0 <= k < |slots| && slots[k] == 0
            && (forall j :: 0 <= j < k ==> slots[j] != 0)
            && after[k] == TakenSlot(c)
            && forall j :: 0 <= j < |slots| && j != k ==> after[j] == slots[j])
      && (!added ==> after == slots)
  {
    var i := FirstFree(slots);
    if !Indexed(slots, c) && i < |slots| {
      assert slots[i] == 0;
    }
  }

  /** Colours pairwise distinct. */
  predicate Distinct(cs: seq<Byte>) {
    forall i, j :: 0 <= i < j < |cs| ==> cs[i] != cs[j]
  }

  /**
    The palette invariant: 16 slots, each free or 0x100 | c, the taken slots
    forming a prefix and holding pairwise-distinct colours.
  */
  ghost predicate WellFormed(slots: seq<Word>) {
    && |slots| == MaxColors
    && (forall i :: 0 <= i < |slots| && slots[i] != 0 ==> slots[i] == TakenSlot(SlotColour(slots[i])))
    && (forall i, j :: 0 <= i < j < |slots| && slots[j] != 0 ==> slots[i] != 0)
    && (forall i, j :: 0 <= i < j < |slots| && slots[j] != 0 ==> SlotColour(slots[i]) != SlotColour(slots[j]))
  }

  /** The colours of the taken slots, in slot order. */
  function Entries(slots: seq<Word>): (cs: seq<Byte>)
    ensures |cs| == FirstFree(slots)
  {
    var n := FirstFree(slots);
    seq(n, i requires 0 <= i < n => SlotColour(slots[i]))
  }

  /** The slots holding the colours cs in order, the rest free. */
  function Layout(cs: seq<Byte>): (slots: seq<Word>)
    requires |cs| <= MaxColors
    ensures |slots| == MaxColors
  {
    seq(MaxColors, i requires 0 <= i < MaxColors => if i < |cs| then TakenSlot(cs[i]) else 0)
  }

  /** The palette of a fresh TGA_File: every slot free. */
  function Empty(): (slots: seq<Word>)
    ensures slots == Layout([])
  {
    seq(MaxColors, _ => 0)
  }

  lemma {:induction false} FirstFreeOfLayout(cs: seq<Byte>)
    requires |cs| <= MaxColors
    ensures FirstFree(Layout(cs)) == |cs|
  {
    var s := Layout(cs);
    assert forall j :: 0 <= j < |cs| ==> s[j] != 0;
    assert |cs| < MaxColors ==> s[|cs|] == 0;
  }

  /** Distinct colours laid out form a well-formed palette whose entries are those colours. */
  lemma LayoutWellFormed(cs: seq<Byte>)
    requires Distinct(cs) && |cs| <= MaxColors
    ensures WellFormed(Layout(cs))
    ensures Entries(Layout(cs)) == cs
  {
    FirstFreeOfLayout(cs);
  }

  /** Every well-formed palette is the layout of its distinct entries. */
  lemma WellFormedIsLayout(slots: seq<Word>)
    requires WellFormed(slots)
    ensures Distinct(Entries(slots)) && |Entries(slots)| <= MaxColors
    ensures Layout(Entries(slots)) == slots
  {
    var n := FirstFree(slots);
    var e := Entries(slots);
    forall i | 0 <= i < MaxColors ensures Layout(e)[i] == slots[i] {
      if i > n {
        assert slots[n] == 0;
      }
    }
  }

  /** A colour is indexed in a layout exactly when it is one of the laid-out colours. */
  lemma IndexedLayout(cs: seq<Byte>, c: Byte)
    requires |cs| <= MaxColors
    ensures Indexed(Layout(cs), c) <==> c in cs
  {
    var s := Layout(cs);
    if c in cs {
      var k :| 0 <= k < |cs| && cs[k] == c;
      assert s[k] != 0 && SlotColour(s[k]) == c;
    }
  }

  /**
    assignIndex keeps the palette invariant: a new colour is appended to the
    entries when there is room, and otherwise the entries stay as they were.
  */
  lemma AssignPreservesWellFormed(slots: seq<Word>, c: Byte)
    requires WellFormed(slots)
    ensures WellFormed(Assign(slots, c).0)
    ensures Assign(slots, c).1 ==> Entries(Assign(slots, c).0) == Entries(slots) + [c]
    ensures !Assign(slots, c).1 ==> Entries(Assign(slots, c).0) == Entries(slots)
  {
    WellFormedIsLayout(slots);
    var e := Entries(slots);
    IndexedLayout(e, c);
    FirstFreeOfLayout(e);
    if Assign(slots, c).1 {
      assert Layout(e)[|e| := TakenSlot(c)] == Layout(e + [c]);
      LayoutWellFormed(e + [c]);
    }
  }

  /** Once 16 colours are taken, a further distinct colour is turned away and nothing changes. */
  lemma FullPaletteRejects(slots: seq<Word>, c: Byte)
    requires WellFormed(slots) && |Entries(slots)| == MaxColors
    requires !Indexed(slots, c)
    ensures Assign(slots, c) == (slots, false)
  {
  }

  /** Assigning the colours one after the other (the first loop of to8bits). */
  function Scan(slots: seq<Word>, colours: seq<Byte>): (r: seq<Word>)
    ensures |r| == |slots|
    decreases |colours|
  {
    if colours == [] then slots
    else Assign(Scan(slots, colours[..|colours| - 1]), colours[|colours| - 1]).0
  }

  /** The colours known before, followed by each new colour in the order it first appears. */
  function Seen(known: seq<Byte>, colours: seq<Byte>): seq<Byte>
    decreases |colours|
  {
    if colours == [] then known
    else
      var prior := Seen(known, colours[..|colours| - 1]);
      if colours[|colours| - 1] in prior then prior else prior + [colours[|colours| - 1]]
  }

  /** The first n elements, or all of them when there are fewer. */
  function Take(cs: seq<Byte>, n: nat): (r: seq<Byte>)
    ensures |r| <= n && r <= cs
  {
    if |cs| <= n then cs else cs[..n]
  }

  /** Seen lists distinct colours, extends what was known, and holds exactly the colours met. */
  lemma {:induction false} SeenProperties(known: seq<Byte>, colours: seq<Byte>)
    requires Distinct(known)
    ensures Distinct(Seen(known, colours))
    ensures known <= Seen(known, colours)
    ensures forall c :: c in Seen(known, colours) <==> c in known || c in colours
    decreases |colours|
  {
    if colours != [] {
      var pre := colours[..|colours| - 1];
      SeenProperties(known, pre);
      assert colours == pre + [colours[|colours| - 1]];
    }
  }

  /**
    Scanning colours into a palette that holds distinct known colours leaves
    it holding the first 16 of: the known colours, then each new colour in
    first-seen order. Colours beyond the sixteenth are dropped.
  */
  lemma {:induction false} ScanLayout(known: seq<Byte>, colours: seq<Byte>)
    requires Distinct(known) && |known| <= MaxColors
    ensures Scan(Layout(known), colours) == Layout(Take(Seen(known, colours), MaxColors))
    decreases |colours|
  {
    if colours != [] {
      var pre, c := colours[..|colours| - 1], colours[|colours| - 1];
      ScanLayout(known, pre);
      SeenProperties(known, pre);
      var s := Seen(known, pre);
      var t := Take(s, MaxColors);
      assert Distinct(t);
      IndexedLayout(t, c);
      FirstFreeOfLayout(t);
      if c !in s && |s| < MaxColors {
        assert Layout(t)[|t| := TakenSlot(c)] == Layout(t + [c]);
      } else if c !in s {
        assert Take(s + [c], MaxColors) == t;
      }
    }
  }

  /**
    The palette to8bits builds from a fresh object: the first (at most 16)
    distinct reduced colours of the scan, in the order they are first met.
  */
  lemma ScanFromEmpty(colours: seq<Byte>)
    ensures Entries(Scan(Empty(), colours)) == Take(Seen([], colours), MaxColors)
    ensures WellFormed(Scan(Empty(), colours))
  {
    ScanLayout([], colours);
    SeenProperties([], colours);
    LayoutWellFormed(Take(Seen([], colours), MaxColors));
  }
}
