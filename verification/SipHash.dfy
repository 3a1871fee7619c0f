/**
  SipHash-2-4 over a stream of bytes (`SipHash24`), proved against the hash of
  the whole message.
 */
module SipHash {

  // ---- The hash of a message

  datatype State = State(v0: bv64, v1: bv64, v2: bv64, v3: bv64)

  // Word operations are named so that proofs can pass over their bits.

  function Add(x: bv64, y: bv64): bv64 { x + y }
  function Xor(x: bv64, y: bv64): bv64 { x ^ y }
  function Or(x: bv64, y: bv64): bv64 { x | y }
  function And(x: bv64, y: bv64): bv64 { x & y }

  function RotateLeft13(x: bv64): bv64 { (x << 13) | (x >> 51) }
  function RotateLeft16(x: bv64): bv64 { (x << 16) | (x >> 48) }
  function RotateLeft17(x: bv64): bv64 { (x << 17) | (x >> 47) }
  function RotateLeft21(x: bv64): bv64 { (x << 21) | (x >> 43) }
  function RotateLeft32(x: bv64): bv64 { (x << 32) | (x >> 32) }

  /** One SipRound. */
  function Round(s: State): State {
    var v0 := Add(s.v0, s.v1);
    var v1 := Xor(RotateLeft13(s.v1), v0);
    var v0' := RotateLeft32(v0);
    var v2 := Add(s.v2, s.v3);
    var v3 := Xor(RotateLeft16(s.v3), v2);
    var v0'' := Add(v0', v3);
    var v3' := Xor(RotateLeft21(v3), v0'');
    var v2' := Add(v2, v1);
    var v1' := Xor(RotateLeft17(v1), v2');
    State(v0'', v1', RotateLeft32(v2'), v3')
  }

  /** Two rounds between mixing a message word in on both sides. */
  function Absorb(s: State, m: bv64): State {
    var t := Round(Round(s.(v3 := Xor(s.v3, m))));
    t.(v0 := Xor(t.v0, m))
  }

  function Shl8(x: bv64): bv64 { x << 8 }

  /** `x << (8 * i)` */
  function AtByte(x: bv64, i: nat): bv64
    requires i < 8
  {
    if i == 0 then x else if i == 1 then x << 8 else if i == 2 then x << 16 else if i == 3 then x << 24
    else if i == 4 then x << 32 else if i == 5 then x << 40 else if i == 6 then x << 48 else x << 56
  }

  /** Put byte `i` into a word. */
  function OrByte(x: bv64, b: bv8, i: nat): bv64
    requires i < 8
  {
    Or(x, AtByte(b as bv64, i))
  }

  /** Up to eight bytes as a little-endian word. */
  function Word(bytes: seq<bv8>): bv64
    requires |bytes| <= 8
  {
    if bytes == [] then 0
    else OrByte(Word(bytes[..|bytes| - 1]), bytes[|bytes| - 1], |bytes| - 1)
  }

  /** All whole words of a message, first one first. */
  function AbsorbAll(s: State, message: seq<bv8>): State
    decreases |message|
  {
    if |message| < 8 then s else AbsorbAll(Absorb(s, Word(message[..8])), message[8..])
  }

  function Rest(message: seq<bv8>): (r: seq<bv8>)
    ensures |r| == |message| % 8
  {
    message[|message| - |message| % 8..]
  }

  function LengthByte(n: nat): bv8 {
    (n % 0x100) as bv8
  }

  function Start(key: seq<bv8>): State
    requires |key| == 16
  {
    var k0, k1 := Word(key[..8]), Word(key[8..]);
    State(Xor(0x736f6d6570736575, k0), Xor(0x646f72616e646f6d, k1), Xor(0x6c7967656e657261, k0), Xor(0x7465646279746573, k1))
  }

  function Finish(s: State): bv64 {
    var t := Round(Round(Round(Round(s.(v2 := Xor(s.v2, 0xff))))));
    Xor(Xor(Xor(t.v0, t.v1), t.v2), t.v3)
  }

  /** SipHash-2-4: the whole words, then the remaining bytes with the length in the top byte. */
  function Hash(key: seq<bv8>, message: seq<bv8>): bv64
    requires |key| == 16
  {
    var last := OrByte(Word(Rest(message)), LengthByte(|message|), 7);
    Finish(Absorb(AbsorbAll(Start(key), message), last))
  }

  // ---- Lemmas about the message

  lemma {:induction false} AbsorbAppend(s: State, a: seq<bv8>, b: seq<bv8>)
    requires |a| % 8 == 0
    ensures AbsorbAll(s, a + b) == AbsorbAll(AbsorbAll(s, a), b)
    decreases |a|
  {
    if a == [] {
      assert a + b == b;
    } else {
      assert (a + b)[..8] == a[..8] && (a + b)[8..] == a[8..] + b;
      AbsorbAppend(Absorb(s, Word(a[..8])), a[8..], b);
    }
  }

  /** Eight more bytes on a whole number of words are one more word. */
  lemma AbsorbWord(s: State, a: seq<bv8>, w: seq<bv8>)
    requires |a| % 8 == 0 && |w| == 8
    ensures AbsorbAll(s, a + w) == Absorb(AbsorbAll(s, a), Word(w))
  {
    AbsorbAppend(s, a, w);
    assert w[..8] == w && w[8..] == [];
  }

  lemma {:induction false} AbsorbWhole(s: State, message: seq<bv8>)
    ensures AbsorbAll(s, message) == AbsorbAll(s, message[..|message| - |message| % 8])
  {
    var whole := message[..|message| - |message| % 8];
    AbsorbAppend(s, whole, Rest(message));
    assert message == whole + Rest(message);
  }

  lemma WordPush(bytes: seq<bv8>, b: bv8)
    requires |bytes| < 8
    ensures Word(bytes + [b]) == OrByte(Word(bytes), b, |bytes|)
  {
    hide OrByte;
    assert (bytes + [b])[..|bytes|] == bytes;
  }

  /** One more byte either completes a word or joins the rest. */
  lemma BytePush(s: State, message: seq<bv8>, b: bv8)
    ensures |message| % 8 == 7 ==>
              && AbsorbAll(s, message + [b]) == Absorb(AbsorbAll(s, message), OrByte(Word(Rest(message)), b, 7))
              && Rest(message + [b]) == []
    ensures |message| % 8 != 7 ==>
              && AbsorbAll(s, message + [b]) == AbsorbAll(s, message)
              && Word(Rest(message + [b])) == OrByte(Word(Rest(message)), b, |message| % 8)
  {
    hide AbsorbAll, Absorb, Word, OrByte;
    var n := |message| - |message| % 8;
    var whole, rest := message[..n], Rest(message);
    AbsorbWhole(s, message);
    WordPush(rest, b);
    assert message + [b] == whole + (rest + [b]);
    if |message| % 8 == 7 {
      AbsorbWord(s, whole, rest + [b]);
    } else {
      AbsorbWhole(s, message + [b]);
      assert (message + [b])[..n] == whole && Rest(message + [b]) == rest + [b];
    }
  }

  lemma WholePush(s: State, message: seq<bv8>, w: seq<bv8>)
    requires |message| % 8 == 0 && |w| == 8
    ensures AbsorbAll(s, message + w) == Absorb(AbsorbAll(s, message), Word(w)) && Rest(message + w) == []
  {
    hide AbsorbAll, Absorb, Word;
    AbsorbWord(s, message, w);
  }

  lemma LengthWraps(n: nat)
    ensures LengthByte(n % 0x100) == LengthByte(n)
  {
  }

  /** `load_le_64` */
  function LoadLe64(p: seq<bv8>): bv64
    requires |p| == 8
  {
    p[0] as bv64 | (p[1] as bv64 << 8) | (p[2] as bv64 << 16) | (p[3] as bv64 << 24)
    | (p[4] as bv64 << 32) | (p[5] as bv64 << 40) | (p[6] as bv64 << 48) | (p[7] as bv64 << 56)
  }

  lemma LoadIsWord(p: seq<bv8>)
    requires |p| == 8
    ensures LoadLe64(p) == Word(p)
  {
    assert Word(p[..0]) == 0 && p[..8] == p;
    LoadChain(p);
    hide Word, OrByte, LoadLe64;
    WordSplit(p, 0);
    WordSplit(p, 1);
    WordSplit(p, 2);
    WordSplit(p, 3);
    WordSplit(p, 4);
    WordSplit(p, 5);
    WordSplit(p, 6);
    WordSplit(p, 7);
  }

  lemma WordSplit(p: seq<bv8>, k: nat)
    requires k < |p| <= 8
    ensures Word(p[..k + 1]) == OrByte(Word(p[..k]), p[k], k)
  {
    WordPush(p[..k], p[k]);
    assert p[..k] + [p[k]] == p[..k + 1];
  }

  lemma LoadChain(p: seq<bv8>)
    requires |p| == 8
    ensures LoadLe64(p) == OrByte(OrByte(OrByte(OrByte(OrByte(OrByte(OrByte(OrByte(0, p[0], 0), p[1], 1), p[2], 2), p[3], 3),
                                                       p[4], 4), p[5], 5), p[6], 6), p[7], 7)
  {
  }

  // ---- Unused bytes are zero

  lemma ByteApart(b: bv8, i: nat, j: nat)
    requires i < j < 8
    ensures And(AtByte(b as bv64, i), AtByte(0xff, j)) == 0
  {
    if i == 0 { } else if i == 1 { } else if i == 2 { } else if i == 3 { } else if i == 4 { } else if i == 5 { } else { }
  }

  lemma OrClear(x: bv64, y: bv64, mask: bv64)
    requires And(x, mask) == 0 && And(y, mask) == 0
    ensures And(Or(x, y), mask) == 0
  {
  }

  lemma OrByteClear(x: bv64, b: bv8, i: nat, j: nat)
    requires i < j < 8 && And(x, AtByte(0xff, j)) == 0
    ensures And(OrByte(x, b, i), AtByte(0xff, j)) == 0
  {
    hide AtByte, And, Or;
    ByteApart(b, i, j);
    OrClear(x, AtByte(b as bv64, i), AtByte(0xff, j));
  }

  /** A partly filled word has nothing in the bytes above. */
  lemma {:induction false} HighBytesClear(bytes: seq<bv8>, j: nat)
    requires |bytes| <= j < 8
    ensures And(Word(bytes), AtByte(0xff, j)) == 0
  {
    hide OrByte, AtByte, And;
    if bytes == [] {
      ZeroClear(AtByte(0xff, j));
    } else {
      var n := |bytes| - 1;
      HighBytesClear(bytes[..n], j);
      OrByteClear(Word(bytes[..n]), bytes[n], n, j);
    }
  }

  lemma ZeroClear(mask: bv64)
    ensures And(0, mask) == 0
  {
  }

  lemma MaskStep(j: nat)
    requires j < 7
    ensures Shl8(AtByte(0xff, j)) == AtByte(0xff, j + 1)
  {
  }

  // ---- What the hasher holds of its input

  /** The words so far are mixed in and the rest is waiting in `m`. */
  ghost predicate Holds(key: seq<bv8>, input: seq<bv8>, s: State, m: bv64, mIdx: nat, inputLen: nat)
    requires |key| == 16
  {
    && s == AbsorbAll(Start(key), input)
    && mIdx == |input| % 8
    && m == Word(Rest(input))
    && inputLen == |input| % 0x100
  }

  lemma HoldsByte(key: seq<bv8>, input: seq<bv8>, s: State, m: bv64, mIdx: nat, inputLen: nat, b: bv8)
    requires |key| == 16 && Holds(key, input, s, m, mIdx, inputLen)
    ensures mIdx < 8
    ensures mIdx == 7 ==> Holds(key, input + [b], Absorb(s, OrByte(m, b, mIdx)), 0, 0, (inputLen + 1) % 0x100)
    ensures mIdx != 7 ==> Holds(key, input + [b], s, OrByte(m, b, mIdx), mIdx + 1, (inputLen + 1) % 0x100)
  {
    hide AbsorbAll, Absorb, Word, OrByte, Start, Rest;
    BytePush(Start(key), input, b);
    EmptyWord();
  }

  lemma EightMore(n: nat)
    requires n % 8 == 0
    ensures (n + 8) % 8 == 0 && (n % 0x100 + 8) % 0x100 == (n + 8) % 0x100
  {
  }

  lemma HoldsWord(key: seq<bv8>, input: seq<bv8>, s: State, m: bv64, inputLen: nat, w: seq<bv8>)
    requires |key| == 16 && |w| == 8 && Holds(key, input, s, m, 0, inputLen)
    ensures Holds(key, input + w, Absorb(s, Word(w)), 0, 0, (inputLen + 8) % 0x100)
  {
    hide AbsorbAll, Absorb, Word, Start, Rest;
    WholePush(Start(key), input, w);
    EmptyWord();
    EightMore(|input|);
    assert |input + w| == |input| + 8;
  }

  lemma EmptyWord()
    ensures Word([]) == 0
  {
  }

  // ---- The streaming hasher

  class SipHash24 {
    var mIdx: nat
    var v0: bv64
    var v1: bv64
    var v2: bv64
    var v3: bv64
    var m: bv64
    var inputLen: nat
    ghost var key: seq<bv8>
    ghost var input: seq<bv8>

    ghost function Current(): State
      reads this
    {
      State(v0, v1, v2, v3)
    }

    ghost predicate Valid()
      reads this
    {
      |key| == 16 && Holds(key, input, Current(), m, mIdx, inputLen)
    }

    constructor (k: seq<bv8>)
      requires |k| == 16
      ensures Valid() && key == k && input == []
    {
      hide LoadLe64, Word, Xor;
      var k0, k1 := LoadLe64(k[..8]), LoadLe64(k[8..]);
      v0 := Xor(0x736f6d6570736575, k0);
      v1 := Xor(0x646f72616e646f6d, k1);
      v2 := Xor(0x6c7967656e657261, k0);
      v3 := Xor(0x7465646279746573, k1);
      mIdx, inputLen, m := 0, 0, 0;
      key, input := k, [];
      new;
      LoadIsWord(k[..8]);
      LoadIsWord(k[8..]);
      EmptyWord();
    }

    method Compress()
      modifies `v0, `v1, `v2, `v3
      ensures Current() == Round(old(Current()))
    {
      hide Add, Xor, RotateLeft13, RotateLeft16, RotateLeft17, RotateLeft21, RotateLeft32;
      v0 := Add(v0, v1);
      v1 := RotateLeft13(v1);
      v1 := Xor(v1, v0);
      v0 := RotateLeft32(v0);
      v2 := Add(v2, v3);
      v3 := RotateLeft16(v3);
      v3 := Xor(v3, v2);
      v0 := Add(v0, v3);
      v3 := RotateLeft21(v3);
      v3 := Xor(v3, v0);
      v2 := Add(v2, v1);
      v1 := RotateLeft17(v1);
      v1 := Xor(v1, v2);
      v2 := RotateLeft32(v2);
    }

    method DigestBlock()
      modifies `v0, `v1, `v2, `v3, `m, `mIdx
      ensures Current() == Absorb(old(Current()), old(m)) && m == 0 && mIdx == 0
    {
      hide Xor, Round;
      v3 := Xor(v3, m);
      Compress();
      Compress();
      v0 := Xor(v0, m);
      mIdx := 0;
      m := 0;
    }

    /** The word-at-a-time path. */
    method UpdateWord(p: seq<bv8>)
      requires Valid() && mIdx == 0 && |p| == 8
      modifies this
      ensures Valid() && key == old(key) && input == old(input) + p && mIdx == 0
    {
      hide Holds, Absorb, Word, LoadLe64;
      HoldsWord(key, input, Current(), m, inputLen, p);
      LoadIsWord(p);
      inputLen := (inputLen + 8) % 0x100;
      m := LoadLe64(p);
      DigestBlock();
      input := input + p;
    }

    /** The byte-at-a-time path. */
    method UpdateByte(b: bv8)
      requires Valid()
      modifies this
      ensures Valid() && key == old(key) && input == old(input) + [b]
    {
      hide Holds, Absorb, OrByte;
      HoldsByte(key, input, Current(), m, mIdx, inputLen, b);
      inputLen := (inputLen + 1) % 0x100;
      m := OrByte(m, b, mIdx);
      mIdx := mIdx + 1;
      if mIdx >= 8 {
        DigestBlock();
      }
      input := input + [b];
    }

    /** Any number of bytes: whole words while aligned, then byte by byte. */
    method Update(data: seq<bv8>)
      requires Valid()
      modifies this
      ensures Valid() && key == old(key) && input == old(input) + data
    {
      hide Holds;
      var i := 0;
      if mIdx == 0 {
        var end8 := |data| - |data| % 8;
        while i != end8
          invariant 0 <= i <= end8 && i % 8 == 0
          invariant Valid() && mIdx == 0 && key == old(key) && input == old(input) + data[..i]
          decreases end8 - i
        {
          assert data[..i + 8] == data[..i] + data[i..i + 8];
          UpdateWord(data[i..i + 8]);
          i := i + 8;
        }
      }
      while i != |data|
        invariant 0 <= i <= |data|
        invariant Valid() && key == old(key) && input == old(input) + data[..i]
        decreases |data| - i
      {
        assert data[..i + 1] == data[..i] + [data[i]];
        UpdateByte(data[i]);
        i := i + 1;
      }
      assert data[..i] == data;
    }

    /** The hash of everything put in; the assertions on unused bytes of `m` hold. */
    method Digest() returns (h: bv64)
      requires Valid()
      modifies this
      ensures h == Hash(old(key), old(input))
    {
      hide AtByte, OrByte, Word, Absorb, AbsorbAll, Round, And, Xor, Shl8, Start, LengthByte;
      var mask := AtByte(0xff, mIdx);
      while mIdx < 7
        invariant mIdx <= 7 && |Rest(input)| <= mIdx && mask == AtByte(0xff, mIdx)
        invariant Current() == old(Current()) && m == old(m) && input == old(input) && inputLen == old(inputLen)
        invariant key == old(key)
      {
        HighBytesClear(Rest(input), mIdx);
        assert And(m, mask) == 0;
        MaskStep(mIdx);
        mask := Shl8(mask);
        mIdx := mIdx + 1;
      }
      HighBytesClear(Rest(input), mIdx);
      assert And(m, mask) == 0;
      LengthWraps(|input|);
      m := OrByte(m, LengthByte(inputLen), 7);
      DigestBlock();
      v2 := Xor(v2, 0xff);
      Compress();
      Compress();
      Compress();
      Compress();
      h := Xor(Xor(Xor(v0, v1), v2), v3);
    }
  }
}
