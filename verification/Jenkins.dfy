/** Bob Jenkins's hash as in HASH_JEN: include/uthash.h, lines 403-455. Words are bit vectors, so
    that all arithmetic wraps around. */
module Jenkins {

  type Word = bv32
  type Key = seq<bv8>

  /** The internal state: the words _hj_i, _hj_j and hashv. */
  datatype State = State(a: Word, b: Word, c: Word)

  const INITIAL := State(0x9e3779b9, 0x9e3779b9, 0xfeedbeef)

  // ------------------------------------------------------------------ mixing

  function Minus(x: Word, y: Word, z: Word): Word { x - y - z }
  function Plus(x: Word, y: Word, z: Word): Word { x + z + y }
  function Xor(x: Word, s: Word): Word { x ^ s }
  function ShiftRight(x: Word, n: bv6): Word
    requires n <= 32
  {
    x >> n
  }
  function ShiftLeft(x: Word, n: bv6): Word
    requires n <= 32
  {
    x << n
  }

  /** One line of HASH_JEN_MIX: x -= y; x -= z; x ^= s. */
  function Sub(x: Word, y: Word, z: Word, s: Word): Word {
    Xor(Minus(x, y, z), s)
  }

  function Unsub(x: Word, y: Word, z: Word, s: Word): Word {
    Plus(Xor(x, s), y, z)
  }

  lemma PlusMinus(x: Word, y: Word, z: Word)
    ensures Plus(Minus(x, y, z), y, z) == x
  {
    assert Minus(x, y, z) == x - y - z;
    assert Plus(x - y - z, y, z) == (x - y - z) + z + y;
  }

  lemma MinusPlus(x: Word, y: Word, z: Word)
    ensures Minus(Plus(x, y, z), y, z) == x
  {
    assert Plus(x, y, z) == x + z + y;
    assert Minus(x + z + y, y, z) == (x + z + y) - y - z;
  }

  lemma XorTwice(x: Word, s: Word)
    ensures Xor(Xor(x, s), s) == x
  {
  }

  lemma SubUnsub(x: Word, y: Word, z: Word, s: Word)
    ensures Unsub(Sub(x, y, z, s), y, z, s) == x
    ensures Sub(Unsub(x, y, z, s), y, z, s) == x
  {
    hide Xor, Plus, Minus;
    XorTwice(Minus(x, y, z), s);
    PlusMinus(x, y, z);
    MinusPlus(Xor(x, s), y, z);
    XorTwice(x, s);
  }

  /** Three lines of HASH_JEN_MIX; the shifts are to the right, left and right. */
  function Round(st: State, p: bv6, q: bv6, r: bv6): State
    requires p <= 32 && q <= 32 && r <= 32
  {
    var a := Sub(st.a, st.b, st.c, ShiftRight(st.c, p));
    var b := Sub(st.b, st.c, a, ShiftLeft(a, q));
    var c := Sub(st.c, a, b, ShiftRight(b, r));
    State(a, b, c)
  }

  function Unround(st: State, p: bv6, q: bv6, r: bv6): State
    requires p <= 32 && q <= 32 && r <= 32
  {
    var c := Unsub(st.c, st.a, st.b, ShiftRight(st.b, r));
    var b := Unsub(st.b, c, st.a, ShiftLeft(st.a, q));
    var a := Unsub(st.a, b, c, ShiftRight(c, p));
    State(a, b, c)
  }

  lemma RoundInverse(st: State, p: bv6, q: bv6, r: bv6)
    requires p <= 32 && q <= 32 && r <= 32
    ensures Unround(Round(st, p, q, r), p, q, r) == st
    ensures Round(Unround(st, p, q, r), p, q, r) == st
  {
    hide Sub, Unsub, ShiftLeft, ShiftRight;
    var t := Round(st, p, q, r);
    SubUnsub(st.c, t.a, t.b, ShiftRight(t.b, r));
    SubUnsub(st.b, st.c, t.a, ShiftLeft(t.a, q));
    SubUnsub(st.a, st.b, st.c, ShiftRight(st.c, p));
    var u := Unround(st, p, q, r);
    SubUnsub(st.c, st.a, st.b, ShiftRight(st.b, r));
    SubUnsub(st.b, u.c, st.a, ShiftLeft(st.a, q));
    SubUnsub(st.a, u.b, u.c, ShiftRight(u.c, p));
  }

  /** HASH_JEN_MIX. */
  function Mix(st: State): State {
    Round(Round(Round(st, 13, 8, 13), 12, 16, 5), 3, 10, 15)
  }

  function Unmix(st: State): State {
    Unround(Unround(Unround(st, 3, 10, 15), 12, 16, 5), 13, 8, 13)
  }

  /** Mixing is a bijection on triples of words: Unmix is its inverse on both sides. */
  lemma MixBijective(st: State)
    ensures Unmix(Mix(st)) == st
    ensures Mix(Unmix(st)) == st
  {
    hide Round, Unround;
    var s1 := Round(st, 13, 8, 13);
    var s2 := Round(s1, 12, 16, 5);
    RoundInverse(st, 13, 8, 13);
    RoundInverse(s1, 12, 16, 5);
    RoundInverse(s2, 3, 10, 15);
    var u1 := Unround(st, 3, 10, 15);
    var u2 := Unround(u1, 12, 16, 5);
    RoundInverse(st, 3, 10, 15);
    RoundInverse(u1, 12, 16, 5);
    RoundInverse(u2, 13, 8, 13);
  }

  lemma MixInjective(s: State, t: State)
    requires Mix(s) == Mix(t)
    ensures s == t
  {
    hide Mix, Unmix;
    MixBijective(s);
    MixBijective(t);
  }

  // ------------------------------------------------------------------ blocks

  function Shifted(b: bv8, n: bv6): Word
    requires n <= 24
  {
    b as Word << n
  }

  /** Four bytes, least significant first. */
  function LittleEndian(b0: bv8, b1: bv8, b2: bv8, b3: bv8): Word {
    AddWord(AddWord(AddWord(Shifted(b0, 0), Shifted(b1, 8)), Shifted(b2, 16)), Shifted(b3, 24))
  }

  lemma BytesInjective(a0: bv8, a1: bv8, a2: bv8, a3: bv8, b0: bv8, b1: bv8, b2: bv8, b3: bv8)
    requires (a0 as Word << 0) + (a1 as Word << 8) + (a2 as Word << 16) + (a3 as Word << 24)
      == (b0 as Word << 0) + (b1 as Word << 8) + (b2 as Word << 16) + (b3 as Word << 24)
    ensures a0 == b0 && a1 == b1 && a2 == b2 && a3 == b3
  {
  }

  lemma LittleEndianSum(b0: bv8, b1: bv8, b2: bv8, b3: bv8)
    ensures LittleEndian(b0, b1, b2, b3)
      == (b0 as Word << 0) + (b1 as Word << 8) + (b2 as Word << 16) + (b3 as Word << 24)
  {
    assert Shifted(b0, 0) == b0 as Word << 0;
    assert Shifted(b1, 8) == b1 as Word << 8;
    assert Shifted(b2, 16) == b2 as Word << 16;
    assert Shifted(b3, 24) == b3 as Word << 24;
  }

  lemma LittleEndianInjective(a0: bv8, a1: bv8, a2: bv8, a3: bv8, b0: bv8, b1: bv8, b2: bv8, b3: bv8)
    requires LittleEndian(a0, a1, a2, a3) == LittleEndian(b0, b1, b2, b3)
    ensures a0 == b0 && a1 == b1 && a2 == b2 && a3 == b3
  {
    hide LittleEndian;
    LittleEndianSum(a0, a1, a2, a3);
    LittleEndianSum(b0, b1, b2, b3);
    BytesInjective(a0, a1, a2, a3, b0, b1, b2, b3);
  }

  function AddWord(x: Word, y: Word): Word { x + y }
  function MinusWord(x: Word, y: Word): Word { x - y }

  lemma AddMinus(x: Word, w: Word)
    ensures MinusWord(AddWord(x, w), w) == x && MinusWord(AddWord(w, x), w) == x
  {
    assert AddWord(x, w) == x + w && AddWord(w, x) == w + x;
    assert MinusWord(x + w, w) == (x + w) - w;
    assert MinusWord(w + x, w) == (w + x) - w;
  }

  lemma AddInjective(x: Word, y: Word, w: Word)
    ensures AddWord(x, w) == AddWord(y, w) ==> x == y
  {
    hide AddWord, MinusWord;
    AddMinus(x, w);
    AddMinus(y, w);
  }

  lemma AddedInjective(x: Word, v: Word, w: Word)
    ensures AddWord(x, v) == AddWord(x, w) ==> v == w
  {
    hide AddWord, MinusWord;
    AddMinus(v, x);
    AddMinus(w, x);
  }

  /** Adding three words to a state. */
  function Add(st: State, w: State): State {
    State(AddWord(st.a, w.a), AddWord(st.b, w.b), AddWord(st.c, w.c))
  }

  lemma AddStateInjective(s: State, t: State, w: State)
    requires Add(s, w) == Add(t, w)
    ensures s == t
  {
    hide AddWord;
    AddInjective(s.a, t.a, w.a);
    AddInjective(s.b, t.b, w.b);
    AddInjective(s.c, t.c, w.c);
  }

  lemma AddWordsInjective(s: State, v: State, w: State)
    requires Add(s, v) == Add(s, w)
    ensures v == w
  {
    hide AddWord;
    AddedInjective(s.a, v.a, w.a);
    AddedInjective(s.b, v.b, w.b);
    AddedInjective(s.c, v.c, w.c);
  }

  /** The words of a block of twelve bytes. */
  function Words(k: Key): State
    requires |k| >= 12
  {
    State(LittleEndian(k[0], k[1], k[2], k[3]), LittleEndian(k[4], k[5], k[6], k[7]),
          LittleEndian(k[8], k[9], k[10], k[11]))
  }

  lemma WordsInjective(k: Key, l: Key)
    requires |k| >= 12 && |l| >= 12 && Words(k) == Words(l)
    ensures k[..12] == l[..12]
  {
    LittleEndianInjective(k[0], k[1], k[2], k[3], l[0], l[1], l[2], l[3]);
    LittleEndianInjective(k[4], k[5], k[6], k[7], l[4], l[5], l[6], l[7]);
    LittleEndianInjective(k[8], k[9], k[10], k[11], l[8], l[9], l[10], l[11]);
  }

  function Absorb(st: State, k: Key): State
    requires |k| >= 12
  {
    Mix(Add(st, Words(k)))
  }

  // ------------------------------------------------------------------ the last bytes

  function ByteAt(k: Key, i: nat): bv8 {
    if i < |k| then k[i] else 0
  }

  /** The words added for the bytes after the last whole block. */
  function TailWords(k: Key): State {
    State(LittleEndian(ByteAt(k, 0), ByteAt(k, 1), ByteAt(k, 2), ByteAt(k, 3)),
          LittleEndian(ByteAt(k, 4), ByteAt(k, 5), ByteAt(k, 6), ByteAt(k, 7)),
          LittleEndian(0, ByteAt(k, 8), ByteAt(k, 9), ByteAt(k, 10)))
  }

  lemma TailWordsInjective(k: Key, l: Key)
    requires |k| == |l| < 12 && TailWords(k) == TailWords(l)
    ensures k == l
  {
    LittleEndianInjective(ByteAt(k, 0), ByteAt(k, 1), ByteAt(k, 2), ByteAt(k, 3),
                          ByteAt(l, 0), ByteAt(l, 1), ByteAt(l, 2), ByteAt(l, 3));
    LittleEndianInjective(ByteAt(k, 4), ByteAt(k, 5), ByteAt(k, 6), ByteAt(k, 7),
                          ByteAt(l, 4), ByteAt(l, 5), ByteAt(l, 6), ByteAt(l, 7));
    LittleEndianInjective(0, ByteAt(k, 8), ByteAt(k, 9), ByteAt(k, 10),
                          0, ByteAt(l, 8), ByteAt(l, 9), ByteAt(l, 10));
    forall i | 0 <= i < |k|
      ensures k[i] == l[i]
    {
      assert ByteAt(k, i) == k[i] && ByteAt(l, i) == l[i];
    }
  }

  /** The length is added first, then the last bytes; see the switch of HASH_JEN. */
  function Finish(st: State, k: Key, len: Word): State {
    Mix(Add(Add(st, State(0, 0, len)), TailWords(k)))
  }

  // ------------------------------------------------------------------ the whole hash

  /** The internal state after the key has been hashed from state st. */
  function Digest(st: State, k: Key, len: Word): State
    decreases |k|
  {
    if |k| >= 12 then Digest(Absorb(st, k), k[12..], len) else Finish(st, k, len)
  }

  /** Different states stay different, whatever follows. */
  lemma {:induction false} DigestInjective(s: State, t: State, k: Key, len: Word)
    requires Digest(s, k, len) == Digest(t, k, len)
    ensures s == t
    decreases |k|
  {
    hide Mix, Words, TailWords, Add;
    if |k| >= 12 {
      DigestInjective(Absorb(s, k), Absorb(t, k), k[12..], len);
      MixInjective(Add(s, Words(k)), Add(t, Words(k)));
      AddStateInjective(s, t, Words(k));
    } else {
      MixInjective(Add(Add(s, State(0, 0, len)), TailWords(k)), Add(Add(t, State(0, 0, len)), TailWords(k)));
      AddStateInjective(Add(s, State(0, 0, len)), Add(t, State(0, 0, len)), TailWords(k));
      AddStateInjective(s, t, State(0, 0, len));
    }
  }

  /** The length counts: a zero byte after the last bytes adds nothing to the words, but a key and the
      same key with a zero byte in its last partial block end in different states. */
  lemma {:induction false} LengthCounts(st: State, k: Key, len: Word, longer: Word)
    requires |k| % 12 != 11
    ensures Digest(st, k + [0], longer) == Digest(st, k, len) <==> longer == len
    decreases |k|
  {
    hide Mix, Words, Add, LittleEndian;
    var l := k + [0];
    if |k| >= 12 {
      assert l[12..] == k[12..] + [0] && Words(l) == Words(k) by { SameWords(k, l); }
      LengthCounts(Absorb(st, k), k[12..], len, longer);
    } else {
      assert TailWords(l) == TailWords(k) by {
        assert forall i: nat :: ByteAt(l, i) == ByteAt(k, i);
      }
      if Digest(st, l, longer) == Digest(st, k, len) {
        var s, t := Add(st, State(0, 0, longer)), Add(st, State(0, 0, len));
        MixInjective(Add(s, TailWords(k)), Add(t, TailWords(k)));
        AddStateInjective(s, t, TailWords(k));
        AddWordsInjective(st, State(0, 0, longer), State(0, 0, len));
      }
    }
  }

  lemma SameWords(k: Key, l: Key)
    requires |k| >= 12 && |l| >= 12 && k[..12] == l[..12]
    ensures Words(k) == Words(l)
  {
    assert forall i :: 0 <= i < 12 ==> k[i] == k[..12][i] && l[i] == l[..12][i];
  }

  /** A key length as an unsigned 32-bit number. */
  function LengthWord(n: nat): Word
    requires n < 0x1_0000_0000
  {
    n as Word
  }

  ghost predicate Odd(w: Word) { w & 1 == 1 }

  lemma Parity(n: nat)
    requires n < 0x1_0000_0000
    ensures Odd(LengthWord(n)) <==> n % 2 == 1
  {
  }

  /** So a key and the same key with a zero byte appended to its last partial block, as long as its
      length fits the unsigned number, are told apart. */
  lemma ZeroByteCounts(k: Key)
    requires |k| % 12 != 11 && |k| + 1 < 0x1_0000_0000
    ensures Hashed(k) == k && Hashed(k + [0]) == k + [0]
    ensures Digest(INITIAL, k, LengthWord(|k|)) != Digest(INITIAL, k + [0], LengthWord(|k + [0]|))
  {
    hide Digest, LengthWord, Odd;
    Parity(|k|);
    Parity(|k + [0]|);
    LengthCounts(INITIAL, k, LengthWord(|k|), LengthWord(|k + [0]|));
  }

  /** The keys agree outside the twelve bytes of block j. */
  ghost predicate DifferOnlyInBlock(k: Key, l: Key, j: nat) {
    |k| == |l| && forall i :: 0 <= i < |k| && !(12 * j <= i < 12 * j + 12) ==> k[i] == l[i]
  }

  /** Keys that differ in one block only, whole or the last partial one, end in different states. */
  lemma {:induction false} NoCollisionInOneBlock(st: State, k: Key, l: Key, len: Word, j: nat)
    requires DifferOnlyInBlock(k, l, j)
    ensures k != l <==> Digest(st, k, len) != Digest(st, l, len)
    decreases |k|
  {
    if Digest(st, k, len) == Digest(st, l, len) {
      hide Mix, Words, TailWords, Add;
      if |k| < 12 {
        var s := Add(st, State(0, 0, len));
        MixInjective(Add(s, TailWords(k)), Add(s, TailWords(l)));
        AddWordsInjective(s, TailWords(k), TailWords(l));
        TailWordsInjective(k, l);
      } else {
        assert k == k[..12] + k[12..] && l == l[..12] + l[12..];
        if j == 0 {
          assert k[12..] == l[12..];
          DigestInjective(Absorb(st, k), Absorb(st, l), k[12..], len);
          MixInjective(Add(st, Words(k)), Add(st, Words(l)));
          AddWordsInjective(st, Words(k), Words(l));
          WordsInjective(k, l);
        } else {
          SameFirstBlock(st, k, l);
          NoCollisionInOneBlock(Absorb(st, k), k[12..], l[12..], len, j - 1);
        }
      }
    }
  }

  lemma SameFirstBlock(st: State, k: Key, l: Key)
    requires |k| >= 12 && |l| >= 12 && forall i :: 0 <= i < 12 ==> k[i] == l[i]
    ensures Absorb(st, k) == Absorb(st, l) && k[..12] == l[..12]
  {
    hide LittleEndian, Mix, Add;
  }

  // ------------------------------------------------------------------ the code

  lemma AddZero(x: Word, n: bv6)
    requires n <= 24
    ensures AddWord(x, Shifted(0, n)) == x
  {
    assert Shifted(0, n) == 0;
  }

  lemma AddAssociative(x: Word, v: Word, w: Word)
    ensures AddWord(AddWord(x, v), w) == AddWord(x, AddWord(v, w))
  {
    assert AddWord(x, v) == x + v && AddWord(v, w) == v + w;
    assert AddWord(x + v, w) == x + v + w;
    assert AddWord(x, v + w) == x + (v + w);
  }

  lemma AddCommutative(v: Word, w: Word)
    ensures AddWord(v, w) == AddWord(w, v)
  {
    assert AddWord(v, w) == v + w;
    assert AddWord(w, v) == w + v;
  }

  /** Adding four bytes one after the other, the highest first. */
  lemma AddBytes(x: Word, b0: bv8, b1: bv8, b2: bv8, b3: bv8)
    ensures AddWord(AddWord(AddWord(AddWord(x, Shifted(b3, 24)), Shifted(b2, 16)), Shifted(b1, 8)), Shifted(b0, 0))
      == AddWord(x, LittleEndian(b0, b1, b2, b3))
  {
    hide Shifted, AddWord;
    var w0, w1, w2, w3 := Shifted(b0, 0), Shifted(b1, 8), Shifted(b2, 16), Shifted(b3, 24);
    var low := AddWord(w0, w1);
    var y := AddWord(AddWord(x, w3), w2);
    calc {
      AddWord(AddWord(y, w1), w0);
      { AddAssociative(y, w1, w0); AddCommutative(w1, w0); }
      AddWord(y, low);
      { AddAssociative(AddWord(x, w3), w2, low); AddCommutative(w2, low); }
      AddWord(AddWord(x, w3), AddWord(low, w2));
      { AddAssociative(x, w3, AddWord(low, w2)); AddCommutative(w3, AddWord(low, w2)); }
      AddWord(x, AddWord(AddWord(low, w2), w3));
    }
  }

  /** One case of the switch: nothing is added for a byte the key does not have. */
  method AddByte(x: Word, key: Key, at: nat, left: nat, i: nat, n: bv6) returns (y: Word)
    requires at + left == |key| && n <= 24
    ensures y == AddWord(x, Shifted(ByteAt(key[at..], i), n))
  {
    hide AddWord, Shifted;
    y := x;
    if left >= i + 1 {
      y := AddWord(x, Shifted(key[at + i], n));
    } else {
      AddZero(x, n);
    }
  }

  /** The switch of HASH_JEN, whose cases fall through from the last byte to the first. */
  method AddTail(st: State, key: Key, at: nat, left: nat) returns (i: Word, j: Word, hashv: Word)
    requires at + left == |key| && left < 12
    ensures State(i, j, hashv) == Add(st, TailWords(key[at..]))
  {
    hide AddWord, Shifted, LittleEndian, ByteAt;
    i, j, hashv := st.a, st.b, st.c;
    hashv := AddByte(hashv, key, at, left, 10, 24);
    hashv := AddByte(hashv, key, at, left, 9, 16);
    hashv := AddByte(hashv, key, at, left, 8, 8);
    j := AddByte(j, key, at, left, 7, 24);
    j := AddByte(j, key, at, left, 6, 16);
    j := AddByte(j, key, at, left, 5, 8);
    j := AddByte(j, key, at, left, 4, 0);
    i := AddByte(i, key, at, left, 3, 24);
    i := AddByte(i, key, at, left, 2, 16);
    i := AddByte(i, key, at, left, 1, 8);
    i := AddByte(i, key, at, left, 0, 0);
    ghost var k := key[at..];
    AddBytes(st.c, 0, ByteAt(k, 8), ByteAt(k, 9), ByteAt(k, 10));
    AddZero(hashv, 0);
    AddBytes(st.b, ByteAt(k, 4), ByteAt(k, 5), ByteAt(k, 6), ByteAt(k, 7));
    AddBytes(st.a, ByteAt(k, 0), ByteAt(k, 1), ByteAt(k, 2), ByteAt(k, 3));
  }

  /** The bytes that are hashed: the key length is converted to an unsigned 32-bit number. */
  function Hashed(key: Key): (k: Key)
    ensures |k| < 0x1_0000_0000 && (|key| < 0x1_0000_0000 ==> k == key)
  {
    key[..|key| % 0x1_0000_0000]
  }

  // ------------------------------------------------------------------ a known value

  /** The bytes 1 to 23: a whole block, and every case of the switch. */
  const SAMPLE: Key := [1, 2, 3, 4, 5, 6, 7, 8, 9, 10, 11, 12, 13, 14, 15, 16, 17, 18, 19, 20, 21, 22, 23]

  // the states before the first and the last mix and after each three of their lines
  const FIRST_0 := State(0xa23a7bba, 0xa63e7fbe, 0x0af8c8f8)
  const FIRST_1 := State(0xf10364c2, 0xa9269004, 0x70cb9d06)
  const FIRST_2 := State(0xd7163b01, 0x5a45b7fd, 0x3dbd87b7)
  const FIRST_3 := State(0x38a54bbb, 0x76cc088b, 0x8e4cdee9)
  const LAST_0 := State(0x48b459c8, 0x8adf1a9c, 0xa562f400)
  const LAST_1 := State(0x1877603b, 0xba64fd61, 0xd2834543)
  const LAST_2 := State(0x8b8235a3, 0x69fc827b, 0xde4b6936)
  const LAST_3 := State(0x58f324d4, 0xfe2ea471, 0x872863ac)

  lemma SampleWords()
    ensures |SAMPLE| == 23 && Words(SAMPLE) == State(0x04030201, 0x08070605, 0x0c0b0a09)
    ensures |SAMPLE[12..]| == 11 && TailWords(SAMPLE[12..]) == State(0x100f0e0d, 0x14131211, 0x17161500)
  {
  }

  lemma SampleBlock()
    ensures Absorb(INITIAL, SAMPLE) == FIRST_3
  {
    hide Words, Mix;
    SampleWords();
    assert Add(INITIAL, Words(SAMPLE)) == FIRST_0;
    SampleFirstMix();
  }

  lemma SampleFirstMix()
    ensures Mix(FIRST_0) == FIRST_3
  {
    hide Round;
    assert Round(FIRST_0, 13, 8, 13) == FIRST_1 by { SampleFirstRounds(); }
    assert Round(FIRST_1, 12, 16, 5) == FIRST_2 by { SampleFirstRounds(); }
    assert Round(FIRST_2, 3, 10, 15) == FIRST_3 by { SampleFirstRounds(); }
  }

  lemma SampleFirstRounds()
    ensures Round(FIRST_0, 13, 8, 13) == FIRST_1
    ensures Round(FIRST_1, 12, 16, 5) == FIRST_2
    ensures Round(FIRST_2, 3, 10, 15) == FIRST_3
  {
  }

  lemma SampleLastMix()
    ensures Mix(LAST_0) == LAST_3
  {
    hide Round;
    assert Round(LAST_0, 13, 8, 13) == LAST_1 by { SampleLastRounds(); }
    assert Round(LAST_1, 12, 16, 5) == LAST_2 by { SampleLastRounds(); }
    assert Round(LAST_2, 3, 10, 15) == LAST_3 by { SampleLastRounds(); }
  }

  lemma SampleLastRounds()
    ensures Round(LAST_0, 13, 8, 13) == LAST_1
    ensures Round(LAST_1, 12, 16, 5) == LAST_2
    ensures Round(LAST_2, 3, 10, 15) == LAST_3
  {
  }

  /** The hash of the sample, worked out from HASH_JEN apart from this model: it fixes every
      constant, shift and byte position. */
  lemma SampleDigest()
    ensures Digest(INITIAL, SAMPLE, 23) == State(0x58f324d4, 0xfe2ea471, 0x872863ac)
  {
    hide Words, TailWords, Mix, Absorb;
    SampleWords();
    SampleBlock();
    SampleLastMix();
    var rest := SAMPLE[12..];
    assert Digest(INITIAL, SAMPLE, 23) == Finish(FIRST_3, rest, 23);
    assert Add(Add(FIRST_3, State(0, 0, 23)), TailWords(rest)) == LAST_0;
  }

  /** HASH_JEN. The bucket number is a mask of the last word. */
  method HashJen(key: Key, numBkts: Word) returns (state: State, bkt: Word)
    ensures state == Digest(INITIAL, Hashed(key), LengthWord(|Hashed(key)|))
    ensures bkt == state.c & (numBkts - 1)
  {
    hide LittleEndian, Mix, AddWord, TailWords;
    state := INITIAL;
    var k := Hashed(key);
    var at, left := 0, |k|;
    assert k[0..] == k;
    while left >= 12
      invariant 0 <= at && 0 <= left && at + left == |k|
      invariant Digest(state, k[at..], LengthWord(|k|)) == Digest(INITIAL, k, LengthWord(|k|))
    {
      ghost var rest := k[at..];
      ghost var before := state;
      state := Mix(State(AddWord(state.a, LittleEndian(k[at], k[at + 1], k[at + 2], k[at + 3])),
                         AddWord(state.b, LittleEndian(k[at + 4], k[at + 5], k[at + 6], k[at + 7])),
                         AddWord(state.c, LittleEndian(k[at + 8], k[at + 9], k[at + 10], k[at + 11]))));
      assert state == Absorb(before, rest);
      at := at + 12;
      left := left - 12;
      assert rest[12..] == k[at..];
    }
    AddNothing(state.a);
    AddNothing(state.b);
    var started := State(state.a, state.b, AddWord(state.c, |k| as Word));
    var i, j, hashv := AddTail(started, k, at, left);
    state := Mix(State(i, j, hashv));
    bkt := state.c & (numBkts - 1);
  }

  lemma AddNothing(x: Word)
    ensures AddWord(x, 0) == x
  {
  }
}
