/** Bitmaps of 32-bit words, as in src/bitmap.h: bit b is bit b % 32 of word b / 32. */
module Bitmap {

  const ENTRIES_PER_SLOT := 32

  /** A word, lowest bit first. */
  type Word = w: seq<bool> | |w| == 32 witness seq(32, i => false)

  /** The map bit by bit. */
  ghost function Bits(words: seq<Word>): (bits: seq<bool>)
    ensures |bits| == ENTRIES_PER_SLOT * |words|
  {
    seq(ENTRIES_PER_SLOT * |words|, b requires 0 <= b < ENTRIES_PER_SLOT * |words| =>
      words[b / ENTRIES_PER_SLOT][b % ENTRIES_PER_SLOT])
  }

  lemma BitAt(words: seq<Word>, i: nat, j: nat)
    requires i < |words| && j < ENTRIES_PER_SLOT
    ensures ENTRIES_PER_SLOT * i + j < |Bits(words)| && Bits(words)[ENTRIES_PER_SLOT * i + j] == words[i][j]
  {
    assert (ENTRIES_PER_SLOT * i + j) / ENTRIES_PER_SLOT == i;
  }

  lemma BitSplit(words: seq<Word>, b: nat)
    requires b < ENTRIES_PER_SLOT * |words|
    ensures b / ENTRIES_PER_SLOT < |words| && b % ENTRIES_PER_SLOT < ENTRIES_PER_SLOT
    ensures Bits(words)[b] == words[b / ENTRIES_PER_SLOT][b % ENTRIES_PER_SLOT]
  {
  }

  /** Changing one bit of one word changes that bit of the map. */
  lemma BitUpdate(words: seq<Word>, b: nat, value: bool)
    requires b < ENTRIES_PER_SLOT * |words|
    ensures b / ENTRIES_PER_SLOT < |words|
    ensures Bits(words[b / ENTRIES_PER_SLOT := words[b / ENTRIES_PER_SLOT][b % ENTRIES_PER_SLOT := value]]) ==
        Bits(words)[b := value]
  {
    var words' := words[b / ENTRIES_PER_SLOT := words[b / ENTRIES_PER_SLOT][b % ENTRIES_PER_SLOT := value]];
    forall c | 0 <= c < |Bits(words)| ensures Bits(words')[c] == Bits(words)[b := value][c] {
      BitSplit(words', c);
      BitSplit(words, c);
    }
  }

  method BitmapPut(bmap: array<Word>, bit: nat, value: bool)
    requires bit < ENTRIES_PER_SLOT * bmap.Length
    modifies bmap
    ensures Bits(bmap[..]) == old(Bits(bmap[..]))[bit := value]
  {
    BitUpdate(bmap[..], bit, value);
    var slot := bit / ENTRIES_PER_SLOT;
    bmap[slot] := bmap[slot][bit % ENTRIES_PER_SLOT := value];
    assert bmap[..] == old(bmap[..])[slot := bmap[slot]];
  }

  /** bitmap_set */
  method BitmapSet(bmap: array<Word>, bit: nat)
    requires bit < ENTRIES_PER_SLOT * bmap.Length
    modifies bmap
    ensures Bits(bmap[..]) == old(Bits(bmap[..]))[bit := true]
  {
    BitmapPut(bmap, bit, true);
  }

  /** bitmap_clear */
  method BitmapClear(bmap: array<Word>, bit: nat)
    requires bit < ENTRIES_PER_SLOT * bmap.Length
    modifies bmap
    ensures Bits(bmap[..]) == old(Bits(bmap[..]))[bit := false]
  {
    BitmapPut(bmap, bit, false);
  }

  /** bitmap_test */
  method BitmapTest(bmap: array<Word>, bit: nat) returns (isSet: bool)
    requires bit < ENTRIES_PER_SLOT * bmap.Length
    ensures isSet == Bits(bmap[..])[bit]
  {
    BitSplit(bmap[..], bit);
    isSet := bmap[bit / ENTRIES_PER_SLOT][bit % ENTRIES_PER_SLOT];
  }

  /** The loops of bitmap_first_clear compare a whole word with all ones, or with zero. */
  predicate AllSame(w: Word, value: bool) {
    forall j :: 0 <= j < |w| ==> w[j] == value
  }

  /** A word of equal bits is a stretch of equal bits of the map. */
  lemma WordBits(words: seq<Word>, i: nat, value: bool)
    requires i < |words|
    ensures AllSame(words[i], value) <==>
            forall b {:trigger Bits(words)[b]} ::
              ENTRIES_PER_SLOT * i <= b < ENTRIES_PER_SLOT * i + ENTRIES_PER_SLOT ==> Bits(words)[b] == value
  {
    forall b | ENTRIES_PER_SLOT * i <= b < ENTRIES_PER_SLOT * i + ENTRIES_PER_SLOT
      ensures Bits(words)[b] == words[i][b - ENTRIES_PER_SLOT * i] {
      BitAt(words, i, b - ENTRIES_PER_SLOT * i);
    }
    forall j | 0 <= j < ENTRIES_PER_SLOT ensures Bits(words)[ENTRIES_PER_SLOT * i + j] == words[i][j] {
      BitAt(words, i, j);
    }
  }

  /** bitmap_first_clear: the first clear bit of the whole words of the entries, or -1 if they are all set. */
  method FirstClear(bmap: array<Word>, entries: nat) returns (r: int)
    requires entries <= ENTRIES_PER_SLOT * bmap.Length
    ensures var n := ENTRIES_PER_SLOT * (entries / ENTRIES_PER_SLOT);
            && (r == -1 || 0 <= r < n)
            && (r == -1 ==> forall b :: 0 <= b < n ==> Bits(bmap[..])[b])
            && (r != -1 ==> !Bits(bmap[..])[r] && forall b :: 0 <= b < r ==> Bits(bmap[..])[b])
  {
    hide Bits;
    var slots := entries / ENTRIES_PER_SLOT;
    for i := 0 to slots
      invariant forall b :: 0 <= b < ENTRIES_PER_SLOT * i ==> Bits(bmap[..])[b]
    {
      WordBits(bmap[..], i, true);
      if !AllSame(bmap[i], true) {
        for j := 0 to ENTRIES_PER_SLOT
          invariant forall b :: 0 <= b < ENTRIES_PER_SLOT * i + j ==> Bits(bmap[..])[b]
        {
          var bit := i * ENTRIES_PER_SLOT + j;
          var isSet := BitmapTest(bmap, bit);
          if !isSet {
            return bit;
          }
        }
      }
    }
    return -1;
  }
}
