/**
 The Threefish-256 block cipher in its looped form: 72 rounds of mixing and word permutation,
 a subkey added before every fourth round and after the last (section 3.3 of
 "The Skein Hash Function Family", version 1.3), with the tweak that the generator fixes.
 */
module Threefish {

  type Word = bv64

  // ----- arithmetic on words, modulo 2^64 -----

  function Plus(x: Word, y: Word): Word {
    x + y
  }

  function Minus(x: Word, y: Word): Word {
    x - y
  }

  function Xor(x: Word, y: Word): Word {
    x ^ y
  }

  lemma MinusInverts(x: Word, y: Word)
    ensures Minus(Plus(x, y), y) == x
  {
    MinusOfSum(x, y);
    assert Plus(x, y) == x + y;
  }

  lemma MinusOfSum(x: Word, y: Word)
    ensures Minus(x + y, y) == x
  {
  }

  lemma XorInverts(x: Word, y: Word)
    ensures Xor(Xor(x, y), y) == x
  {
  }

  lemma PlusZero(x: Word)
    ensures Plus(x, 0) == x
  {
  }

  lemma PlusSwap(x: Word, y: Word, z: Word)
    ensures Plus(x, Plus(y, z)) == Plus(Plus(x, z), y)
  {
    PlusSwapped(x, y, z);
    assert Plus(y, z) == y + z && Plus(x, z) == x + z;
  }

  lemma PlusSwapped(x: Word, y: Word, z: Word)
    ensures Plus(x, y + z) == Plus(x + z, y)
  {
  }

  lemma PlusAssociates(x: Word, y: Word, z: Word)
    ensures Plus(Plus(x, y), z) == Plus(x, Plus(y, z))
  {
    PlusAssociated(x, y, z);
    assert Plus(x, y) == x + y && Plus(y, z) == y + z;
  }

  lemma PlusAssociated(x: Word, y: Word, z: Word)
    ensures Plus(x + y, z) == Plus(x, y + z)
  {
  }

  datatype Block = Block(w0: Word, w1: Word, w2: Word, w3: Word)

  const PARITY: Word := 0x1BD1_1BDA_A9FC_1A22

  /** The two shifts of the source text, for the distances that the cipher uses. */
  function Rotl(x: Word, r: nat): Word {
    match r
    case 5 => (x << 5) | (x >> 59)
    case 12 => (x << 12) | (x >> 52)
    case 14 => (x << 14) | (x >> 50)
    case 16 => (x << 16) | (x >> 48)
    case 22 => (x << 22) | (x >> 42)
    case 23 => (x << 23) | (x >> 41)
    case 25 => (x << 25) | (x >> 39)
    case 32 => (x << 32) | (x >> 32)
    case 33 => (x << 33) | (x >> 31)
    case 37 => (x << 37) | (x >> 27)
    case 40 => (x << 40) | (x >> 24)
    case 46 => (x << 46) | (x >> 18)
    case 52 => (x << 52) | (x >> 12)
    case 57 => (x << 57) | (x >> 7)
    case 58 => (x << 58) | (x >> 6)
    case _ => x
  }

  function Rotr(x: Word, r: nat): Word {
    match r
    case 5 => x.RotateRight(5)
    case 12 => x.RotateRight(12)
    case 14 => x.RotateRight(14)
    case 16 => x.RotateRight(16)
    case 22 => x.RotateRight(22)
    case 23 => x.RotateRight(23)
    case 25 => x.RotateRight(25)
    case 32 => x.RotateRight(32)
    case 33 => x.RotateRight(33)
    case 37 => x.RotateRight(37)
    case 40 => x.RotateRight(40)
    case 46 => x.RotateRight(46)
    case 52 => x.RotateRight(52)
    case 57 => x.RotateRight(57)
    case 58 => x.RotateRight(58)
    case _ => x
  }

  /** The shifts of the source text rotate a word to the left. */
  lemma RotlIsRotation(x: Word)
    ensures Rotl(x, 5) == x.RotateLeft(5)
    ensures Rotl(x, 12) == x.RotateLeft(12)
    ensures Rotl(x, 14) == x.RotateLeft(14)
    ensures Rotl(x, 16) == x.RotateLeft(16)
    ensures Rotl(x, 22) == x.RotateLeft(22)
    ensures Rotl(x, 23) == x.RotateLeft(23)
    ensures Rotl(x, 25) == x.RotateLeft(25)
    ensures Rotl(x, 32) == x.RotateLeft(32)
    ensures Rotl(x, 33) == x.RotateLeft(33)
    ensures Rotl(x, 37) == x.RotateLeft(37)
    ensures Rotl(x, 40) == x.RotateLeft(40)
    ensures Rotl(x, 46) == x.RotateLeft(46)
    ensures Rotl(x, 52) == x.RotateLeft(52)
    ensures Rotl(x, 57) == x.RotateLeft(57)
    ensures Rotl(x, 58) == x.RotateLeft(58)
  {
  }

  lemma RotrOfRotation(x: Word)
    ensures Rotr((x << 5) | (x >> 59), 5) == x
    ensures Rotr((x << 12) | (x >> 52), 12) == x
    ensures Rotr((x << 14) | (x >> 50), 14) == x
    ensures Rotr((x << 16) | (x >> 48), 16) == x
    ensures Rotr((x << 22) | (x >> 42), 22) == x
    ensures Rotr((x << 23) | (x >> 41), 23) == x
    ensures Rotr((x << 25) | (x >> 39), 25) == x
    ensures Rotr((x << 32) | (x >> 32), 32) == x
    ensures Rotr((x << 33) | (x >> 31), 33) == x
    ensures Rotr((x << 37) | (x >> 27), 37) == x
    ensures Rotr((x << 40) | (x >> 24), 40) == x
    ensures Rotr((x << 46) | (x >> 18), 46) == x
    ensures Rotr((x << 52) | (x >> 12), 52) == x
    ensures Rotr((x << 57) | (x >> 7), 57) == x
    ensures Rotr((x << 58) | (x >> 6), 58) == x
  {
  }

  lemma RotrInverts(x: Word, r: nat)
    ensures Rotr(Rotl(x, r), r) == x
  {
    if r in {5, 12, 14, 16, 22, 23, 25, 32, 33, 37, 40, 46, 52, 57, 58} {
      hide Rotr;
      RotrOfRotation(x);
    }
  }

  // ----- key schedule -----

  function KeyWord(key: Block, i: nat): Word
    requires i < 5
  {
    match i
    case 0 => key.w0
    case 1 => key.w1
    case 2 => key.w2
    case 3 => key.w3
    case 4 => Xor(Xor(Xor(Xor(key.w0, key.w1), key.w2), key.w3), PARITY)
  }

  function TweakWord(i: nat): Word
    requires i < 3
  {
    match i
    case 0 => 13
    case 1 => 37
    case 2 => Xor(13, 37)
  }

  function Subkey(key: Block, s: nat): Block
    requires s < 19
  {
    Block(KeyWord(key, s % 5),
          Plus(KeyWord(key, (s + 1) % 5), TweakWord(s % 3)),
          Plus(KeyWord(key, (s + 2) % 5), TweakWord((s + 1) % 3)),
          Plus(KeyWord(key, (s + 3) % 5), s as Word))
  }

  // The remainders as case distinctions, which the solver evaluates on literals.

  function Mod5(i: nat): nat
    requires i < 25
  {
    if i < 5 then i else if i < 10 then i - 5 else if i < 15 then i - 10 else if i < 20 then i - 15 else i - 20
  }

  function Mod3(i: nat): nat
    requires i < 21
  {
    if i < 3 then i else if i < 6 then i - 3 else if i < 9 then i - 6 else if i < 12 then i - 9
    else if i < 15 then i - 12 else if i < 18 then i - 15 else i - 18
  }

  lemma ModCases(i: nat)
    requires i < 25
    ensures Mod5(i) == i % 5
    ensures i < 21 ==> Mod3(i) == i % 3
  {
  }

  lemma SubkeyByCases(key: Block, s: nat)
    requires s < 19
    ensures Mod5(s) < 5 && Mod5(s + 1) < 5 && Mod5(s + 2) < 5 && Mod5(s + 3) < 5 && Mod3(s) < 3 && Mod3(s + 1) < 3
    ensures Subkey(key, s) == Block(
      KeyWord(key, Mod5(s)), Plus(KeyWord(key, Mod5(s + 1)), TweakWord(Mod3(s))),
      Plus(KeyWord(key, Mod5(s + 2)), TweakWord(Mod3(s + 1))), Plus(KeyWord(key, Mod5(s + 3)), s as Word))
  {
    hide KeyWord, TweakWord, Plus, Mod5, Mod3;
    ModCases(s);
    ModCases(s + 1);
    ModCases(s + 2);
    ModCases(s + 3);
  }

  lemma SubkeysFrom0(key: Block)
    ensures Subkey(key, 0) == Block(KeyWord(key, 0), Plus(KeyWord(key, 1), TweakWord(0)),
      Plus(KeyWord(key, 2), TweakWord(1)), Plus(KeyWord(key, 3), 0))
    ensures Subkey(key, 1) == Block(KeyWord(key, 1), Plus(KeyWord(key, 2), TweakWord(1)),
      Plus(KeyWord(key, 3), TweakWord(2)), Plus(KeyWord(key, 4), 1))
    ensures Subkey(key, 2) == Block(KeyWord(key, 2), Plus(KeyWord(key, 3), TweakWord(2)),
      Plus(KeyWord(key, 4), TweakWord(0)), Plus(KeyWord(key, 0), 2))
  {
    hide Plus, KeyWord, TweakWord, Subkey;
    SubkeyByCases(key, 0);
    SubkeyByCases(key, 1);
    SubkeyByCases(key, 2);
  }

  lemma SubkeysFrom3(key: Block)
    ensures Subkey(key, 3) == Block(KeyWord(key, 3), Plus(KeyWord(key, 4), TweakWord(0)),
      Plus(KeyWord(key, 0), TweakWord(1)), Plus(KeyWord(key, 1), 3))
    ensures Subkey(key, 4) == Block(KeyWord(key, 4), Plus(KeyWord(key, 0), TweakWord(1)),
      Plus(KeyWord(key, 1), TweakWord(2)), Plus(KeyWord(key, 2), 4))
    ensures Subkey(key, 5) == Block(KeyWord(key, 0), Plus(KeyWord(key, 1), TweakWord(2)),
      Plus(KeyWord(key, 2), TweakWord(0)), Plus(KeyWord(key, 3), 5))
  {
    hide Plus, KeyWord, TweakWord, Subkey;
    SubkeyByCases(key, 3);
    SubkeyByCases(key, 4);
    SubkeyByCases(key, 5);
  }

  lemma SubkeysFrom6(key: Block)
    ensures Subkey(key, 6) == Block(KeyWord(key, 1), Plus(KeyWord(key, 2), TweakWord(0)),
      Plus(KeyWord(key, 3), TweakWord(1)), Plus(KeyWord(key, 4), 6))
    ensures Subkey(key, 7) == Block(KeyWord(key, 2), Plus(KeyWord(key, 3), TweakWord(1)),
      Plus(KeyWord(key, 4), TweakWord(2)), Plus(KeyWord(key, 0), 7))
    ensures Subkey(key, 8) == Block(KeyWord(key, 3), Plus(KeyWord(key, 4), TweakWord(2)),
      Plus(KeyWord(key, 0), TweakWord(0)), Plus(KeyWord(key, 1), 8))
  {
    hide Plus, KeyWord, TweakWord, Subkey;
    SubkeyByCases(key, 6);
    SubkeyByCases(key, 7);
    SubkeyByCases(key, 8);
  }

  lemma SubkeysFrom9(key: Block)
    ensures Subkey(key, 9) == Block(KeyWord(key, 4), Plus(KeyWord(key, 0), TweakWord(0)),
      Plus(KeyWord(key, 1), TweakWord(1)), Plus(KeyWord(key, 2), 9))
    ensures Subkey(key, 10) == Block(KeyWord(key, 0), Plus(KeyWord(key, 1), TweakWord(1)),
      Plus(KeyWord(key, 2), TweakWord(2)), Plus(KeyWord(key, 3), 10))
    ensures Subkey(key, 11) == Block(KeyWord(key, 1), Plus(KeyWord(key, 2), TweakWord(2)),
      Plus(KeyWord(key, 3), TweakWord(0)), Plus(KeyWord(key, 4), 11))
  {
    hide Plus, KeyWord, TweakWord, Subkey;
    SubkeyByCases(key, 9);
    SubkeyByCases(key, 10);
    SubkeyByCases(key, 11);
  }

  lemma SubkeysFrom12(key: Block)
    ensures Subkey(key, 12) == Block(KeyWord(key, 2), Plus(KeyWord(key, 3), TweakWord(0)),
      Plus(KeyWord(key, 4), TweakWord(1)), Plus(KeyWord(key, 0), 12))
    ensures Subkey(key, 13) == Block(KeyWord(key, 3), Plus(KeyWord(key, 4), TweakWord(1)),
      Plus(KeyWord(key, 0), TweakWord(2)), Plus(KeyWord(key, 1), 13))
    ensures Subkey(key, 14) == Block(KeyWord(key, 4), Plus(KeyWord(key, 0), TweakWord(2)),
      Plus(KeyWord(key, 1), TweakWord(0)), Plus(KeyWord(key, 2), 14))
  {
    hide Plus, KeyWord, TweakWord, Subkey;
    SubkeyByCases(key, 12);
    SubkeyByCases(key, 13);
    SubkeyByCases(key, 14);
  }

  lemma SubkeysFrom15(key: Block)
    ensures Subkey(key, 15) == Block(KeyWord(key, 0), Plus(KeyWord(key, 1), TweakWord(0)),
      Plus(KeyWord(key, 2), TweakWord(1)), Plus(KeyWord(key, 3), 15))
    ensures Subkey(key, 16) == Block(KeyWord(key, 1), Plus(KeyWord(key, 2), TweakWord(1)),
      Plus(KeyWord(key, 3), TweakWord(2)), Plus(KeyWord(key, 4), 16))
    ensures Subkey(key, 17) == Block(KeyWord(key, 2), Plus(KeyWord(key, 3), TweakWord(2)),
      Plus(KeyWord(key, 4), TweakWord(0)), Plus(KeyWord(key, 0), 17))
  {
    hide Plus, KeyWord, TweakWord, Subkey;
    SubkeyByCases(key, 15);
    SubkeyByCases(key, 16);
    SubkeyByCases(key, 17);
  }

  lemma SubkeysFrom18(key: Block)
    ensures Subkey(key, 18) == Block(KeyWord(key, 3), Plus(KeyWord(key, 4), TweakWord(0)),
      Plus(KeyWord(key, 0), TweakWord(1)), Plus(KeyWord(key, 1), 18))
  {
    hide Plus, KeyWord, TweakWord, Subkey;
    SubkeyByCases(key, 18);
  }

  // ----- rounds -----

  /** The rotation distances, repeating every eight rounds. */
  function Distance(d: nat, second: bool): nat
    requires d < 8
  {
    match d
    case 0 => if second then 16 else 14
    case 1 => if second then 57 else 52
    case 2 => if second then 40 else 23
    case 3 => if second then 37 else 5
    case 4 => if second then 33 else 25
    case 5 => if second then 12 else 46
    case 6 => if second then 22 else 58
    case 7 => if second then 32 else 32
  }

  function AddBlock(a: Block, b: Block): Block {
    Block(Plus(a.w0, b.w0), Plus(a.w1, b.w1), Plus(a.w2, b.w2), Plus(a.w3, b.w3))
  }

  /** Mixes the two pairs of words and exchanges the second and fourth word. */
  function MixAndPermute(d: nat, v: Block): Block
    requires d < 8
  {
    var f0 := Plus(v.w0, v.w1);
    var f2 := Plus(v.w2, v.w3);
    Block(f0, Xor(Rotl(v.w3, Distance(d, true)), f2), f2, Xor(Rotl(v.w1, Distance(d, false)), f0))
  }

  function Round(key: Block, d: nat, v: Block): Block
    requires d < 72
  {
    MixAndPermute(d % 8, if d % 4 == 0 then AddBlock(v, Subkey(key, d / 4)) else v)
  }

  function Rounds(key: Block, v: Block, d: nat): Block
    requires d <= 72
    decreases d, v
  {
    if d == 0 then v else Round(key, d - 1, Rounds(key, v, d - 1))
  }

  function Encrypt(key: Block, v: Block): Block {
    AddBlock(Rounds(key, v, 72), Subkey(key, 18))
  }

  /** Four rounds once a subkey has been added, with the first half of the distances or the second. */
  function Quad(first: bool, e: Block): Block {
    if first then MixAndPermute(3, MixAndPermute(2, MixAndPermute(1, MixAndPermute(0, e))))
    else MixAndPermute(7, MixAndPermute(6, MixAndPermute(5, MixAndPermute(4, e))))
  }

  lemma FourRounds(key: Block, v: Block, s: nat)
    requires s < 18
    ensures Rounds(key, v, 4 * s + 4) == Quad(s % 2 == 0, AddBlock(Rounds(key, v, 4 * s), Subkey(key, s)))
  {
    hide MixAndPermute, AddBlock, Subkey, Rounds;
    OneRound(key, v, s, 0);
    OneRound(key, v, s, 1);
    OneRound(key, v, s, 2);
    OneRound(key, v, s, 3);
  }

  lemma OneRound(key: Block, v: Block, s: nat, i: nat)
    requires s < 18 && i < 4
    ensures var before := Rounds(key, v, 4 * s + i);
      Rounds(key, v, 4 * s + i + 1) ==
        MixAndPermute(if s % 2 == 0 then i else 4 + i, if i == 0 then AddBlock(before, Subkey(key, s)) else before)
  {
    hide MixAndPermute, AddBlock, Subkey;
    RoundNumber(s / 2, s % 2, i);
    assert s == 2 * (s / 2) + s % 2;
  }

  lemma RoundNumber(q: nat, h: nat, i: nat)
    requires h < 2 && i < 4
    ensures (4 * (2 * q + h) + i) % 4 == i && (4 * (2 * q + h) + i) / 4 == 2 * q + h
    ensures (4 * (2 * q + h) + i) % 8 == 4 * h + i
  {
  }

  // ----- inverse -----

  function SubtractBlock(a: Block, b: Block): Block {
    Block(Minus(a.w0, b.w0), Minus(a.w1, b.w1), Minus(a.w2, b.w2), Minus(a.w3, b.w3))
  }

  function UnmixAndUnpermute(d: nat, v: Block): Block
    requires d < 8
  {
    var e1 := Rotr(Xor(v.w3, v.w0), Distance(d, false));
    var e3 := Rotr(Xor(v.w1, v.w2), Distance(d, true));
    Block(Minus(v.w0, e1), e1, Minus(v.w2, e3), e3)
  }

  function Unround(key: Block, d: nat, v: Block): Block
    requires d < 72
  {
    var e := UnmixAndUnpermute(d % 8, v);
    if d % 4 == 0 then SubtractBlock(e, Subkey(key, d / 4)) else e
  }

  function Unrounds(key: Block, v: Block, d: nat): Block
    requires d <= 72
    decreases d, v
  {
    if d == 0 then v else Unrounds(key, Unround(key, d - 1, v), d - 1)
  }

  function Decrypt(key: Block, v: Block): Block {
    Unrounds(key, SubtractBlock(v, Subkey(key, 18)), 72)
  }

  lemma SubtractInverts(a: Block, b: Block)
    ensures SubtractBlock(AddBlock(a, b), b) == a
  {
    hide Plus, Minus;
    MinusInverts(a.w0, b.w0);
    MinusInverts(a.w1, b.w1);
    MinusInverts(a.w2, b.w2);
    MinusInverts(a.w3, b.w3);
  }

  lemma UnmixInverts(d: nat, v: Block)
    requires d < 8
    ensures UnmixAndUnpermute(d, MixAndPermute(d, v)) == v
  {
    hide Rotl, Rotr, Distance, Plus, Minus, Xor;
    RotrInverts(v.w1, Distance(d, false));
    RotrInverts(v.w3, Distance(d, true));
    XorInverts(Rotl(v.w1, Distance(d, false)), Plus(v.w0, v.w1));
    XorInverts(Rotl(v.w3, Distance(d, true)), Plus(v.w2, v.w3));
    MinusInverts(v.w0, v.w1);
    MinusInverts(v.w2, v.w3);
  }

  lemma UnroundInverts(key: Block, d: nat, v: Block)
    requires d < 72
    ensures Unround(key, d, Round(key, d, v)) == v
  {
    hide MixAndPermute, UnmixAndUnpermute, AddBlock, SubtractBlock, Subkey;
    var e := if d % 4 == 0 then AddBlock(v, Subkey(key, d / 4)) else v;
    UnmixInverts(d % 8, e);
    SubtractInverts(v, Subkey(key, d / 4));
  }

  lemma {:induction false} UnroundsInvert(key: Block, v: Block, d: nat)
    requires d <= 72
    ensures Unrounds(key, Rounds(key, v, d), d) == v
  {
    hide Round, Unround;
    if d > 0 {
      UnroundInverts(key, d - 1, Rounds(key, v, d - 1));
      UnroundsInvert(key, v, d - 1);
    }
  }

  /** Decryption undoes encryption, so for one key distinct inputs have distinct outputs. */
  lemma DecryptInverts(key: Block, v: Block)
    ensures Decrypt(key, Encrypt(key, v)) == v
  {
    hide Rounds, Unrounds, AddBlock, SubtractBlock, Subkey;
    SubtractInverts(Rounds(key, v, 72), Subkey(key, 18));
    UnroundsInvert(key, v, 72);
  }

  lemma EncryptIsInjective(key: Block, v: Block, v': Block)
    requires Encrypt(key, v) == Encrypt(key, v')
    ensures v == v'
  {
    hide Encrypt, Decrypt;
    DecryptInverts(key, v);
    DecryptInverts(key, v');
  }
}
