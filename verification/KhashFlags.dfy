/** The flag words of khash: two bits a slot, sixteen slots a word. */
module KhashFlags {

  datatype Slot = Live | Deleted | Empty | Both

  const SHIFTS: seq<bv32> := [0, 2, 4, 6, 8, 10, 12, 14, 16, 18, 20, 22, 24, 26, 28, 30]

  /** Where the flags of slot `i` are in its word. */
  function Shift(i: nat): (s: bv32)
    ensures IsShift(s)
  {
    SHIFTS[i % 16]
  }

  function Flag(w: bv32, shift: bv32): bv32
    requires IsShift(shift)
  {
    (w >> shift) & 3
  }

  predicate IsShift(s: bv32) {
    s & 1 == 0 && s <= 30
  }

  lemma ShiftsDiffer(i: nat, j: nat)
    requires i % 16 != j % 16
    ensures Shift(i) != Shift(j)
  {
  }

  function DelTrue(w: bv32, s: bv32): bv32
    requires IsShift(s)
  {
    w | (1 << s)
  }

  function EmptyFalse(w: bv32, s: bv32): bv32
    requires IsShift(s)
  {
    w & !(2 << s)
  }

  function BothFalse(w: bv32, s: bv32): bv32
    requires IsShift(s)
  {
    w & !(3 << s)
  }

  lemma OwnFlag(w: bv32, s: bv32)
    requires IsShift(s)
    ensures Flag(DelTrue(w, s), s) == Flag(w, s) | 1
    ensures Flag(EmptyFalse(w, s), s) == Flag(w, s) & 1
    ensures Flag(BothFalse(w, s), s) == 0
  {
  }

  lemma OtherFlagDel(w: bv32, s: bv32, t: bv32)
    requires IsShift(s) && IsShift(t) && s != t
    ensures Flag(DelTrue(w, s), t) == Flag(w, t)
  {
  }

  lemma OtherFlagEmpty(w: bv32, s: bv32, t: bv32)
    requires IsShift(s) && IsShift(t) && s != t
    ensures Flag(EmptyFalse(w, s), t) == Flag(w, t)
  {
  }

  lemma OtherFlagBoth(w: bv32, s: bv32, t: bv32)
    requires IsShift(s) && IsShift(t) && s != t
    ensures Flag(BothFalse(w, s), t) == Flag(w, t)
  {
  }

  function SlotOf(flag: bv32): Slot {
    if flag == 0 then Live else if flag == 1 then Deleted else if flag == 2 then Empty else Both
  }

  function SlotAt(words: seq<bv32>, i: nat): Slot
    requires i < 16 * |words|
  {
    SlotOf(Flag(words[i / 16], Shift(i)))
  }

  function Slots(words: seq<bv32>, n: nat): (st: seq<Slot>)
    requires n <= 16 * |words|
    ensures |st| == n && forall i :: 0 <= i < n ==> st[i] == SlotAt(words, i)
  {
    seq(n, i requires 0 <= i < n => SlotAt(words, i))
  }

  /** `w'` is `w` with the flags of slot `i` changed and all others kept. */
  ghost predicate OnlySlot(w: bv32, w': bv32, i: nat) {
    forall s: bv32 :: IsShift(s) && s != Shift(i) ==> Flag(w', s) == Flag(w, s)
  }

  /** Changing one word at the shift of slot `i` changes slot `i` and no other. */
  lemma OneSlot(words: seq<bv32>, n: nat, i: nat, w: bv32)
    requires i < n <= 16 * |words| && OnlySlot(words[i / 16], w, i)
    ensures Slots(words[i / 16 := w], n) == Slots(words, n)[i := SlotOf(Flag(w, Shift(i)))]
  {
    hide Flag, Shift, IsShift, SlotOf;
    var words' := words[i / 16 := w];
    forall j: nat | j < n && j != i ensures SlotAt(words', j) == SlotAt(words, j) {
      if j / 16 == i / 16 { ShiftsDiffer(i, j); }
    }
  }

  lemma OthersKept(w: bv32, i: nat)
    ensures OnlySlot(w, DelTrue(w, Shift(i)), i)
    ensures OnlySlot(w, EmptyFalse(w, Shift(i)), i)
    ensures OnlySlot(w, BothFalse(w, Shift(i)), i)
  {
    hide Flag, IsShift, Shift, DelTrue, EmptyFalse, BothFalse;
    forall s: bv32 | IsShift(s) && s != Shift(i)
      ensures Flag(DelTrue(w, Shift(i)), s) == Flag(w, s)
      ensures Flag(EmptyFalse(w, Shift(i)), s) == Flag(w, s)
      ensures Flag(BothFalse(w, Shift(i)), s) == Flag(w, s)
    {
      OtherFlagDel(w, Shift(i), s);
      OtherFlagEmpty(w, Shift(i), s);
      OtherFlagBoth(w, Shift(i), s);
    }
  }

  lemma Marks(f: bv32)
    ensures SlotOf(f) == Live ==> SlotOf(f | 1) == Deleted
    ensures SlotOf(f) == Empty ==> SlotOf(f & 1) == Live
  {
  }

  /** __ac_set_isdel_true */
  method SetDeleted(flags: array<bv32>, i: nat, ghost n: nat)
    requires i < n <= 16 * flags.Length && Slots(flags[..], n)[i] == Live
    modifies flags
    ensures Slots(flags[..], n) == old(Slots(flags[..], n))[i := Deleted]
  {
    var w := flags[i / 16];
    OwnFlag(w, Shift(i));
    Marks(Flag(w, Shift(i)));
    OthersKept(w, i);
    OneSlot(flags[..], n, i, DelTrue(w, Shift(i)));
    hide Flag, Shift, DelTrue, OnlySlot, SlotOf;
    ghost var was := flags[..];
    flags[i / 16] := DelTrue(w, Shift(i));
    assert flags[..] == was[i / 16 := flags[i / 16]];
  }

  /** __ac_set_isempty_false */
  method SetNotEmpty(flags: array<bv32>, i: nat, ghost n: nat)
    requires i < n <= 16 * flags.Length && Slots(flags[..], n)[i] == Empty
    modifies flags
    ensures Slots(flags[..], n) == old(Slots(flags[..], n))[i := Live]
  {
    var w := flags[i / 16];
    OwnFlag(w, Shift(i));
    Marks(Flag(w, Shift(i)));
    OthersKept(w, i);
    OneSlot(flags[..], n, i, EmptyFalse(w, Shift(i)));
    hide Flag, Shift, EmptyFalse, OnlySlot, SlotOf;
    ghost var was := flags[..];
    flags[i / 16] := EmptyFalse(w, Shift(i));
    assert flags[..] == was[i / 16 := flags[i / 16]];
  }

  /** __ac_set_isboth_false */
  method SetLive(flags: array<bv32>, i: nat, ghost n: nat)
    requires i < n <= 16 * flags.Length
    modifies flags
    ensures Slots(flags[..], n) == old(Slots(flags[..], n))[i := Live]
  {
    var w := flags[i / 16];
    OwnFlag(w, Shift(i));
    Marks(Flag(w, Shift(i)));
    OthersKept(w, i);
    OneSlot(flags[..], n, i, BothFalse(w, Shift(i)));
    hide Flag, Shift, BothFalse, OnlySlot;
    ghost var was := flags[..];
    flags[i / 16] := BothFalse(w, Shift(i));
    assert flags[..] == was[i / 16 := flags[i / 16]];
  }

  /** __ac_isempty, __ac_isdel and __ac_iseither. */
  predicate IsEmpty(words: seq<bv32>, i: nat): (b: bool)
    requires i < 16 * |words|
    ensures b <==> SlotAt(words, i) == Empty || SlotAt(words, i) == Both
  {
    FlagRange(words[i / 16], Shift(i));
    Flag(words[i / 16], Shift(i)) & 2 != 0
  }

  predicate IsDel(words: seq<bv32>, i: nat): (b: bool)
    requires i < 16 * |words|
    ensures b <==> SlotAt(words, i) == Deleted || SlotAt(words, i) == Both
  {
    FlagRange(words[i / 16], Shift(i));
    Flag(words[i / 16], Shift(i)) & 1 != 0
  }

  predicate IsEither(words: seq<bv32>, i: nat): (b: bool)
    requires i < 16 * |words|
    ensures b <==> SlotAt(words, i) != Live
  {
    Flag(words[i / 16], Shift(i)) != 0
  }

  lemma FlagRange(w: bv32, s: bv32)
    requires IsShift(s)
    ensures Flag(w, s) <= 3
  {
  }

  /** __ac_fsize */
  function FlagWords(m: nat): nat {
    if m < 16 then 1 else m / 16
  }

  lemma AllEmptyWord(s: bv32)
    requires IsShift(s)
    ensures Flag(0xAAAA_AAAA, s) == 2
  {
  }

  /** memset of the flags to 0xaa */
  method ClearFlags(flags: array<bv32>, ghost n: nat)
    requires n <= 16 * flags.Length
    modifies flags
    ensures forall i :: 0 <= i < n ==> Slots(flags[..], n)[i] == Empty
  {
    forall k | 0 <= k < flags.Length {
      flags[k] := 0xAAAA_AAAA;
    }
    hide Flag, Shift, IsShift;
    forall i: nat | i < n ensures SlotAt(flags[..], i) == Empty {
      AllEmptyWord(Shift(i));
    }
  }
}
