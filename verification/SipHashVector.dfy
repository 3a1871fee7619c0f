/**
  The published test vector of SipHash-2-4: key bytes 0 to 15, message bytes 0
  to 14, hash 0xa129ca6149be45e5.  It fixes every constant, rotation and round.
 */
module SipHashVector {
  import opened SipHash

  // ---- Rotations

  // Each takes bit `i` of a word to bit `i + k`, around the end.

  lemma Rotation13(x: bv64, i: bv64)
    requires i < 64
    ensures (RotateLeft13(x) >> ((i + 13) % 64)) & 1 == (x >> i) & 1
  {
  }

  lemma Rotation16(x: bv64, i: bv64)
    requires i < 64
    ensures (RotateLeft16(x) >> ((i + 16) % 64)) & 1 == (x >> i) & 1
  {
  }

  lemma Rotation17(x: bv64, i: bv64)
    requires i < 64
    ensures (RotateLeft17(x) >> ((i + 17) % 64)) & 1 == (x >> i) & 1
  {
  }

  lemma Rotation21(x: bv64, i: bv64)
    requires i < 64
    ensures (RotateLeft21(x) >> ((i + 21) % 64)) & 1 == (x >> i) & 1
  {
  }

  lemma Rotation32(x: bv64, i: bv64)
    requires i < 64
    ensures (RotateLeft32(x) >> ((i + 32) % 64)) & 1 == (x >> i) & 1
  {
  }

  // ---- The rounds

  lemma Round1()
    ensures Round(State(0x7469686173716475, 0x6b617f6d656e6665, 0x6b7f62616d677361, 0x7c6d6c6a717c6d7b))
         == State(0x64668a929363847f, 0x4ed232083d9aa8dc, 0xf2f74892d8141a2e, 0x9290f9810552f4a8)
  {
  }

  lemma Round2()
    ensures Round(State(0x64668a929363847f, 0x4ed232083d9aa8dc, 0xf2f74892d8141a2e, 0x9290f9810552f4a8))
         == State(0x4d07749cdd0858e0, 0x0d52f6f62a4f59a4, 0x634cb3577b01fd3d, 0xa5224d6f55c7d9c8)
  {
  }

  lemma Round3()
    ensures Round(State(0x4a017198de0a59e0, 0x0d52f6f62a4f59a4, 0x634cb3577b01fd3d, 0xaa2c40635ecdd0c0))
         == State(0x557560fb6063d060, 0x4c8e675bd961133e, 0xbd3d002b1703a181, 0xfb9441179a4a7315)
  {
  }

  lemma Round4()
    ensures Round(State(0x557560fb6063d060, 0x4c8e675bd961133e, 0xbd3d002b1703a181, 0xfb9441179a4a7315))
         == State(0x338bbea7645fb759, 0x414fc3fb98efe374, 0xccf13ea527b9f4bd, 0x5293f5da84008f82)
  {
  }

  lemma Round5()
    ensures Round(State(0x3c85b3ab6f55be51, 0x414fc3fb98efe374, 0xccf13ea527b9f442, 0x5293f5da84008f82))
         == State(0xf2a55244a20e48fe, 0xac5ad16ccc3ca6e4, 0x9fe5adb0a52f393a, 0xfd41d55e88f30308)
  {
  }

  lemma Round6()
    ensures Round(State(0xf2a55244a20e48fe, 0xac5ad16ccc3ca6e4, 0x9fe5adb0a52f393a, 0xfd41d55e88f30308))
         == State(0xb6c3fbdecc2ae4b4, 0x1638c86adc6b3cf0, 0x28b8b6ab62553d46, 0xc9465e86ec43eb95)
  {
  }

  lemma Round7()
    ensures Round(State(0xb6c3fbdecc2ae4b4, 0x1638c86adc6b3cf0, 0x28b8b6ab62553d46, 0xc9465e86ec43eb95))
         == State(0x58101b167209a5e6, 0xf8792ae75b66e7dd, 0x1da14c3ec7f0b4f7, 0x7624ba8a41bc4ad9)
  {
  }

  lemma Round8()
    ensures Round(State(0x58101b167209a5e6, 0xf8792ae75b66e7dd, 0x1da14c3ec7f0b4f7, 0x7624ba8a41bc4ad9))
         == State(0xf6bcd53893fecff1, 0x54b9964c7ea0d937, 0x1b38329c099bb55a, 0x1814bb89ad7be679)
  {
  }

  // ---- The message

  const KEY: seq<bv8> := [0, 1, 2, 3, 4, 5, 6, 7, 8, 9, 10, 11, 12, 13, 14, 15]
  const MESSAGE: seq<bv8> := [0, 1, 2, 3, 4, 5, 6, 7, 8, 9, 10, 11, 12, 13, 14]

  lemma KeyWords()
    ensures Word(KEY[..8]) == 0x0706050403020100 && Word(KEY[8..]) == 0x0f0e0d0c0b0a0908
  {
    LoadIsWord(KEY[..8]);
    LoadIsWord(KEY[8..]);
  }

  lemma MessageWords()
    ensures Word(MESSAGE[..8]) == 0x0706050403020100
    ensures |Rest(MESSAGE)| == 7 && OrByte(Word(Rest(MESSAGE)), LengthByte(15), 7) == 0x0f0e0d0c0b0a0908
  {
    LoadIsWord(MESSAGE[..8]);
    var rest := Rest(MESSAGE);
    assert rest == [8, 9, 10, 11, 12, 13, 14];
    LengthOfMessage();
    WordPush(rest, 15);
    LoadIsWord(rest + [15]);
    hide Word;
  }

  lemma LengthOfMessage()
    ensures LengthByte(15) == 15
  {
  }

  lemma StartState()
    ensures Start(KEY) == State(0x7469686173716475, 0x6b617f6d656e6665, 0x6b7f62616d677361, 0x7b6b696e727e6c7b)
  {
    hide Word;
    KeyWords();
  }

  lemma FirstWord()
    ensures Absorb(State(0x7469686173716475, 0x6b617f6d656e6665, 0x6b7f62616d677361, 0x7b6b696e727e6c7b), 0x0706050403020100)
         == State(0x4a017198de0a59e0, 0x0d52f6f62a4f59a4, 0x634cb3577b01fd3d, 0xa5224d6f55c7d9c8)
  {
    hide Round;
    Round1();
    Round2();
  }

  lemma LastWord()
    ensures Absorb(State(0x4a017198de0a59e0, 0x0d52f6f62a4f59a4, 0x634cb3577b01fd3d, 0xa5224d6f55c7d9c8), 0x0f0e0d0c0b0a0908)
         == State(0x3c85b3ab6f55be51, 0x414fc3fb98efe374, 0xccf13ea527b9f4bd, 0x5293f5da84008f82)
  {
    hide Round;
    Round3();
    Round4();
  }

  lemma Ending()
    ensures Finish(State(0x3c85b3ab6f55be51, 0x414fc3fb98efe374, 0xccf13ea527b9f4bd, 0x5293f5da84008f82))
         == 0xa129ca6149be45e5
  {
    hide Round;
    Round5();
    Round6();
    Round7();
    Round8();
  }

  lemma Vector()
    ensures Hash(KEY, MESSAGE) == 0xa129ca6149be45e5
  {
    hide Absorb, Finish, Start, Word, OrByte;
    MessageWords();
    StartState();
    FirstWord();
    LastWord();
    Ending();
    assert |MESSAGE[8..]| == 7;
  }
}
