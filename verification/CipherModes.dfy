/**
 Streaming modes over any block function: CFB with 128-bit and with 8-bit feedback and counter mode
 (sections 6.3 and 6.5 of NIST SP 800-38A).
 */
module CipherModes {
  import opened Common

  type uint8 = bv8

  /** A block cipher's encryption: from 16 bytes to 16 bytes, otherwise arbitrary. */
  type Block = b: seq<uint8> | |b| == 16 witness [0, 0, 0, 0, 0, 0, 0, 0, 0, 0, 0, 0, 0, 0, 0, 0]

  type Cipher = Block -> Block

  function Xor(a: uint8, b: uint8): uint8 {
    a ^ b
  }

  lemma XorIs(a: uint8, b: uint8)
    ensures Xor(a, b) == a ^ b
  {
  }

  lemma XorTwice(k: uint8, a: uint8)
    ensures Xor(k, Xor(k, a)) == a
  {
  }

  lemma LastSplit(s: seq<uint8>)
    requires s != []
    ensures s == s[..|s| - 1] + [s[|s| - 1]]
  {
  }

  // ---------------------------------------------------------------- 128-bit feedback

  /** The feedback register, the offset in it, and what has been put out. */
  datatype Cfb = Cfb(iv: Block, n: nat, output: seq<uint8>)

  function CfbByte(E: Cipher, s: Cfb, c: uint8, decrypt: bool): (r: Cfb)
    requires s.n < 16
    ensures r.n < 16 && |r.output| == |s.output| + 1
  {
    var iv := if s.n == 0 then E(s.iv) else s.iv;
    var o := Xor(iv[s.n], c);
    Cfb(iv[s.n := if decrypt then c else o], if s.n == 15 then 0 else s.n + 1, s.output + [o])
  }

  function Cfb128(E: Cipher, s: Cfb, input: seq<uint8>, decrypt: bool): (r: Cfb)
    requires s.n < 16
    ensures r.n < 16 && |r.output| == |s.output| + |input|
    decreases |input|
  {
    if input == [] then s else CfbByte(E, Cfb128(E, s, input[..|input| - 1], decrypt), input[|input| - 1], decrypt)
  }

  lemma CfbSnoc(E: Cipher, s: Cfb, input: seq<uint8>, i: nat, decrypt: bool)
    requires s.n < 16 && i < |input|
    ensures Cfb128(E, s, input[..i + 1], decrypt) == CfbByte(E, Cfb128(E, s, input[..i], decrypt), input[i], decrypt)
  {
    assert input[..i + 1][..i] == input[..i];
  }

  /** A stream may be processed in pieces with the carried state. */
  lemma {:induction false} CfbInPieces(E: Cipher, s: Cfb, a: seq<uint8>, b: seq<uint8>, decrypt: bool)
    requires s.n < 16
    ensures Cfb128(E, s, a + b, decrypt) == Cfb128(E, Cfb128(E, s, a, decrypt), b, decrypt)
    decreases |b|
  {
    if b == [] {
      assert a + b == a;
    } else {
      var k := |b| - 1;
      assert (a + b)[..|a + b| - 1] == a + b[..k];
      CfbInPieces(E, s, a, b[..k], decrypt);
    }
  }

  lemma CfbByteIs(E: Cipher, s: Cfb, c: uint8, decrypt: bool)
    requires s.n < 16
    ensures var iv := if s.n == 0 then E(s.iv) else s.iv;
            var o := Xor(iv[s.n], c);
            CfbByte(E, s, c, decrypt) ==
            Cfb(iv[s.n := if decrypt then c else o], if s.n == 15 then 0 else s.n + 1, s.output + [o])
  {
  }

  /** One byte there and back. */
  lemma CfbByteDecrypts(E: Cipher, e: Cfb, d: Cfb, x: uint8, o: uint8)
    requires e.n < 16 && d.n == e.n && d.iv == e.iv
    requires o == Xor((if e.n == 0 then E(e.iv) else e.iv)[e.n], x)
    ensures var e', d' := CfbByte(E, e, x, false), CfbByte(E, d, o, true);
            e'.output == e.output + [o] && d'.output == d.output + [x] && d'.iv == e'.iv && d'.n == e'.n
  {
    hide Xor;
    CfbByteIs(E, e, x, false);
    CfbByteIs(E, d, o, true);
    XorTwice((if e.n == 0 then E(e.iv) else e.iv)[e.n], x);
  }

  lemma CfbSteps(E: Cipher, s: Cfb, input: seq<uint8>, decrypt: bool)
    requires s.n < 16
    ensures input == [] ==> Cfb128(E, s, input, decrypt) == s
    ensures input != [] ==>
              var k := |input| - 1;
              Cfb128(E, s, input, decrypt) == CfbByte(E, Cfb128(E, s, input[..k], decrypt), input[k], decrypt)
  {
    hide CfbByte;
  }

  /** Decrypting what was encrypted from the same state gives the input back and leaves the same state. */
  lemma {:induction false} CfbDecrypts(E: Cipher, iv: Block, n: nat, input: seq<uint8>)
    requires n < 16
    ensures var e := Cfb128(E, Cfb(iv, n, []), input, false);
            Cfb128(E, Cfb(iv, n, []), e.output, true) == Cfb(e.iv, e.n, input)
    decreases |input|
  {
    hide *;
    var s := Cfb(iv, n, []);
    CfbSteps(E, s, input, false);
    if input == [] {
      CfbSteps(E, s, [], true);
    } else {
      var k := |input| - 1;
      var e := Cfb128(E, s, input[..k], false);
      var o := Xor((if e.n == 0 then E(e.iv) else e.iv)[e.n], input[k]);
      LastSplit(input);
      CfbDecrypts(E, iv, n, input[..k]);
      CfbByteDecrypts(E, e, Cfb128(E, s, e.output, true), input[k], o);
      CfbLast(E, s, e.output, o, true);
    }
  }

  lemma CfbLast(E: Cipher, s: Cfb, input: seq<uint8>, x: uint8, decrypt: bool)
    requires s.n < 16
    ensures Cfb128(E, s, input + [x], decrypt) == CfbByte(E, Cfb128(E, s, input, decrypt), x, decrypt)
  {
    assert (input + [x])[..|input|] == input;
  }

  /** The block that is encrypted for segment `j`: the register at the start, then the ciphertext block before. */
  function CfbInput(iv: Block, c: seq<uint8>, j: nat): Block
    requires 16 * j <= |c|
  {
    if j == 0 then iv else c[16 * (j - 1)..16 * j]
  }

  /** The key stream of segment `j`; of a segment that was begun already, the register holds what is left. */
  function CfbKey(E: Cipher, iv: Block, n: nat, c: seq<uint8>, j: nat): Block
    requires 16 * j <= |c|
  {
    if j == 0 && n > 0 then iv else E(CfbInput(iv, c, j))
  }

  /**
   The register between two bytes: new ciphertext in front, the rest of the key stream behind. `c` is
   the ciphertext from the start of the segment that was begun: `n` bytes were there before.
   */
  ghost predicate CfbRegister(E: Cipher, iv: Block, n: nat, c: seq<uint8>, s: Cfb) {
    var j, i := |c| / 16, |c| % 16;
    && s.n == i && n <= |c|
    && if i == 0 then s.iv == CfbInput(iv, c, j)
       else s.iv == c[16 * j..] + CfbKey(E, iv, n, c, j)[i..]
  }

  lemma SameInput(E: Cipher, iv: Block, n: nat, c: seq<uint8>, o: uint8, j: nat)
    requires 16 * j <= |c|
    ensures CfbInput(iv, c + [o], j) == CfbInput(iv, c, j) && CfbKey(E, iv, n, c + [o], j) == CfbKey(E, iv, n, c, j)
  {
    assert j > 0 ==> (c + [o])[16 * (j - 1)..16 * j] == c[16 * (j - 1)..16 * j];
  }

  /** A register that is partly ciphertext, after one more byte. */
  lemma RegisterFills(front: seq<uint8>, reg: Block, o: uint8)
    requires |front| < 16
    ensures var i := |front|;
            (front + reg[i..])[i] == reg[i] && (front + reg[i..])[i := o] == front + [o] + reg[i + 1..]
  {
  }

  lemma SixteenSteps(n: nat)
    ensures n % 16 == 15 ==> (n + 1) % 16 == 0 && (n + 1) / 16 == n / 16 + 1
    ensures n % 16 != 15 ==> (n + 1) % 16 == n % 16 + 1 && (n + 1) / 16 == n / 16
    ensures 16 * (n / 16) + n % 16 == n
  {
  }

  /** The register that a byte is put into, and the ciphertext of the current segment. */
  lemma RegisterIs(E: Cipher, iv: Block, n: nat, c: seq<uint8>, s: Cfb)
    requires CfbRegister(E, iv, n, c, s)
    ensures var j, i := |c| / 16, |c| % 16;
            && s.n == i && 16 * j + i == |c| && n <= |c|
            && (if i == 0 then E(s.iv) else s.iv) == c[16 * j..] + CfbKey(E, iv, n, c, j)[i..]
  {
    hide CfbInput;
  }

  lemma SegmentGrows(c: seq<uint8>, o: uint8, j: nat)
    requires 16 * j <= |c|
    ensures (c + [o])[16 * j..] == c[16 * j..] + [o]
    ensures |c| + 1 == 16 * (j + 1) ==> (c + [o])[16 * j..16 * (j + 1)] == c[16 * j..] + [o]
  {
  }

  /** A register filled up to its end is the next segment's input block. */
  lemma RegisterAfter(E: Cipher, iv: Block, n: nat, c: seq<uint8>, o: uint8, s: Cfb)
    requires var j, i := |c| / 16, |c| % 16;
             && n <= |c| && s.n == (if i == 15 then 0 else i + 1)
             && s.iv == c[16 * j..] + [o] + CfbKey(E, iv, n, c, j)[i + 1..]
    ensures CfbRegister(E, iv, n, c + [o], s)
  {
    var j, i := |c| / 16, |c| % 16;
    hide CfbKey;
    SixteenSteps(|c|);
    SameInput(E, iv, n, c, o, j);
    SegmentGrows(c, o, j);
    if i == 15 {
      assert CfbKey(E, iv, n, c, j)[i + 1..] == [];
      assert s.iv == (c + [o])[16 * j..16 * (j + 1)];
    } else {
      hide CfbInput;
    }
  }

  lemma RegisterOneMore(E: Cipher, iv: Block, n: nat, c: seq<uint8>, s: Cfb, x: uint8, o: uint8)
    requires CfbRegister(E, iv, n, c, s)
    requires o == Xor(CfbKey(E, iv, n, c, |c| / 16)[|c| % 16], x)
    ensures CfbByte(E, s, x, false).output == s.output + [o]
    ensures CfbRegister(E, iv, n, c + [o], CfbByte(E, s, x, false))
  {
    hide Xor, CfbByte, CfbRegister, CfbInput, CfbKey;
    RegisterIs(E, iv, n, c, s);
    RegisterFills(c[16 * (|c| / 16)..], CfbKey(E, iv, n, c, |c| / 16), o);
    CfbByteIs(E, s, x, false);
    RegisterAfter(E, iv, n, c, o, CfbByte(E, s, x, false));
  }

  /**
   Section 6.3 with 128-bit segments, resumed at offset `n` of a segment: each ciphertext byte is
   plaintext combined with the rest of the register, and then with encrypted feedback.
   */
  ghost predicate IsCfb128(E: Cipher, iv: Block, n: nat, p: seq<uint8>, c: seq<uint8>)
    requires n < 16
  {
    && |c| == |p|
    && forall t: nat | t < |p| :: c[t] == CfbKey(E, iv, n, iv[..n] + c, (n + t) / 16)[(n + t) % 16] ^ p[t]
  }

  lemma IsCfbOneMore(E: Cipher, iv: Block, n: nat, p: seq<uint8>, c: seq<uint8>, k: nat, x: uint8, o: uint8)
    requires n < 16 && IsCfb128(E, iv, n, p, c) && k == n + |c|
    requires o == Xor(CfbKey(E, iv, n, iv[..n] + c, k / 16)[k % 16], x)
    ensures IsCfb128(E, iv, n, p + [x], c + [o])
  {
    hide Xor, CfbInput, CfbKey;
    AppendBehind(iv[..n], c, o);
    forall t: nat | t < |p| + 1
      ensures (c + [o])[t] == CfbKey(E, iv, n, iv[..n] + (c + [o]), (n + t) / 16)[(n + t) % 16] ^ (p + [x])[t]
    {
      XorIs(CfbKey(E, iv, n, iv[..n] + c, k / 16)[k % 16], x);
      SameInput(E, iv, n, iv[..n] + c, o, (n + t) / 16);
    }
  }

  lemma AppendBehind(a: seq<uint8>, c: seq<uint8>, o: uint8)
    ensures a + (c + [o]) == a + c + [o]
  {
  }

  lemma CfbEmpty(E: Cipher, iv: Block, n: nat)
    requires n < 16
    ensures IsCfb128(E, iv, n, [], []) && CfbRegister(E, iv, n, iv[..n] + [], Cfb(iv, n, []))
  {
    assert iv[..n] + [] == iv[..n] && iv == iv[..n] + iv[n..];
  }

  /** From any offset the output is CFB: first the rest of the saved register, then encrypted ciphertext blocks. */
  lemma {:induction false} CfbIsStandard(E: Cipher, iv: Block, n: nat, p: seq<uint8>)
    requires n < 16
    ensures var r := Cfb128(E, Cfb(iv, n, []), p, false);
            IsCfb128(E, iv, n, p, r.output) && CfbRegister(E, iv, n, iv[..n] + r.output, r)
    decreases |p|
  {
    hide *;
    var s := Cfb(iv, n, []);
    CfbSteps(E, s, p, false);
    if p == [] {
      CfbEmpty(E, iv, n);
    } else {
      var k := |p| - 1;
      LastSplit(p);
      CfbIsStandard(E, iv, n, p[..k]);
      StandardOneMore(E, iv, n, p[..k], Cfb128(E, s, p[..k], false), p[k]);
    }
  }

  lemma StandardOneMore(E: Cipher, iv: Block, n: nat, p: seq<uint8>, s: Cfb, x: uint8)
    requires n < 16 && IsCfb128(E, iv, n, p, s.output) && CfbRegister(E, iv, n, iv[..n] + s.output, s)
    ensures s.n < 16
    ensures var r := CfbByte(E, s, x, false);
            IsCfb128(E, iv, n, p + [x], r.output) && CfbRegister(E, iv, n, iv[..n] + r.output, r)
  {
    hide *;
    var c := iv[..n] + s.output;
    var t := |c|;
    RegisterIs(E, iv, n, c, s);
    var o := Xor(CfbKey(E, iv, n, c, t / 16)[t % 16], x);
    RegisterOneMore(E, iv, n, c, s, x, o);
    AppendBehind(iv[..n], s.output, o);
    IsCfbOneMore(E, iv, n, p, s.output, t, x, o);
  }

  // ---------------------------------------------------------------- 8-bit feedback

  datatype Cfb8 = Cfb8(iv: Block, output: seq<uint8>)

  /** The register moves up by the ciphertext byte, which is the input when decrypting. */
  function Cfb8Byte(E: Cipher, s: Cfb8, c: uint8, decrypt: bool): (r: Cfb8)
    ensures |r.output| == |s.output| + 1
  {
    var o := Xor(E(s.iv)[0], c);
    Cfb8(s.iv[1..] + [if decrypt then c else o], s.output + [o])
  }

  function Cfb8All(E: Cipher, s: Cfb8, input: seq<uint8>, decrypt: bool): (r: Cfb8)
    ensures |r.output| == |s.output| + |input|
    decreases |input|
  {
    if input == [] then s else Cfb8Byte(E, Cfb8All(E, s, input[..|input| - 1], decrypt), input[|input| - 1], decrypt)
  }

  lemma Cfb8Steps(E: Cipher, s: Cfb8, input: seq<uint8>, decrypt: bool)
    ensures input == [] ==> Cfb8All(E, s, input, decrypt) == s
    ensures input != [] ==>
              var k := |input| - 1;
              Cfb8All(E, s, input, decrypt) == Cfb8Byte(E, Cfb8All(E, s, input[..k], decrypt), input[k], decrypt)
  {
    hide Cfb8Byte;
  }

  lemma Cfb8Last(E: Cipher, s: Cfb8, input: seq<uint8>, x: uint8, decrypt: bool)
    ensures Cfb8All(E, s, input + [x], decrypt) == Cfb8Byte(E, Cfb8All(E, s, input, decrypt), x, decrypt)
  {
    assert (input + [x])[..|input|] == input;
  }

  lemma Cfb8Snoc(E: Cipher, s: Cfb8, input: seq<uint8>, i: nat, decrypt: bool)
    requires i < |input|
    ensures Cfb8All(E, s, input[..i + 1], decrypt) == Cfb8Byte(E, Cfb8All(E, s, input[..i], decrypt), input[i], decrypt)
  {
    assert input[..i + 1][..i] == input[..i];
  }

  lemma {:induction false} Cfb8InPieces(E: Cipher, s: Cfb8, a: seq<uint8>, b: seq<uint8>, decrypt: bool)
    ensures Cfb8All(E, s, a + b, decrypt) == Cfb8All(E, Cfb8All(E, s, a, decrypt), b, decrypt)
    decreases |b|
  {
    hide Cfb8Byte;
    if b == [] {
      assert a + b == a;
    } else {
      var k := |b| - 1;
      assert (a + b)[..|a + b| - 1] == a + b[..k];
      Cfb8InPieces(E, s, a, b[..k], decrypt);
    }
  }

  lemma Cfb8ByteDecrypts(E: Cipher, e: Cfb8, d: Cfb8, x: uint8, o: uint8)
    requires d.iv == e.iv && o == Xor(E(e.iv)[0], x)
    ensures var e', d' := Cfb8Byte(E, e, x, false), Cfb8Byte(E, d, o, true);
            e'.output == e.output + [o] && d'.output == d.output + [x] && d'.iv == e'.iv
  {
    hide Xor;
    XorTwice(E(e.iv)[0], x);
  }

  lemma {:induction false} Cfb8Decrypts(E: Cipher, iv: Block, input: seq<uint8>)
    ensures var e := Cfb8All(E, Cfb8(iv, []), input, false);
            Cfb8All(E, Cfb8(iv, []), e.output, true) == Cfb8(e.iv, input)
    decreases |input|
  {
    hide *;
    var s := Cfb8(iv, []);
    Cfb8Steps(E, s, input, false);
    if input == [] {
      Cfb8Steps(E, s, [], true);
    } else {
      var k := |input| - 1;
      var e := Cfb8All(E, s, input[..k], false);
      var o := Xor(E(e.iv)[0], input[k]);
      LastSplit(input);
      Cfb8Decrypts(E, iv, input[..k]);
      Cfb8ByteDecrypts(E, e, Cfb8All(E, s, e.output, true), input[k], o);
      Cfb8Last(E, s, e.output, o, true);
    }
  }

  /**
   Section 6.3 with 8-bit segments: the input block for byte `t` is the last 16 bytes of IV and
   ciphertext before it.
   */
  ghost predicate IsCfb8(E: Cipher, iv: Block, p: seq<uint8>, c: seq<uint8>) {
    |c| == |p| && forall t: nat | t < |p| :: c[t] == E((iv + c)[t..t + 16])[0] ^ p[t]
  }

  lemma WindowKept(iv: Block, c: seq<uint8>, o: uint8, t: nat)
    requires t <= |c|
    ensures (iv + (c + [o]))[t..t + 16] == (iv + c)[t..t + 16]
  {
  }

  lemma WindowMoves(iv: Block, c: seq<uint8>, o: uint8)
    ensures (iv + c)[|c|..][1..] + [o] == (iv + (c + [o]))[|c| + 1..]
    ensures (iv + c)[|c|..] == (iv + c)[|c|..|c| + 16]
  {
  }

  lemma IsCfb8OneMore(E: Cipher, iv: Block, p: seq<uint8>, c: seq<uint8>, x: uint8, o: uint8)
    requires IsCfb8(E, iv, p, c) && o == Xor(E((iv + c)[|c|..|c| + 16])[0], x)
    ensures IsCfb8(E, iv, p + [x], c + [o])
  {
    hide Xor;
    forall t: nat | t < |p| + 1
      ensures (c + [o])[t] == E((iv + (c + [o]))[t..t + 16])[0] ^ (p + [x])[t]
    {
      XorIs(E((iv + c)[|c|..|c| + 16])[0], x);
      WindowKept(iv, c, o, t);
    }
  }

  lemma Cfb8OneMore(E: Cipher, iv: Block, p: seq<uint8>, s: Cfb8, x: uint8)
    requires IsCfb8(E, iv, p, s.output) && |s.output| == |p| && s.iv == (iv + s.output)[|p|..]
    ensures var r := Cfb8Byte(E, s, x, false);
            IsCfb8(E, iv, p + [x], r.output) && r.iv == (iv + r.output)[|p| + 1..]
  {
    hide Xor, IsCfb8;
    var o := Xor(E(s.iv)[0], x);
    WindowMoves(iv, s.output, o);
    IsCfb8OneMore(E, iv, p, s.output, x, o);
  }

  lemma {:induction false} Cfb8IsStandard(E: Cipher, iv: Block, p: seq<uint8>)
    ensures var r := Cfb8All(E, Cfb8(iv, []), p, false);
            IsCfb8(E, iv, p, r.output) && r.iv == (iv + r.output)[|p|..]
    decreases |p|
  {
    if p == [] {
      assert (iv + [])[0..] == iv;
    } else {
      hide Cfb8Byte, Xor;
      var k := |p| - 1;
      Cfb8IsStandard(E, iv, p[..k]);
      Cfb8OneMore(E, iv, p[..k], Cfb8All(E, Cfb8(iv, []), p[..k], false), p[k]);
      assert p == p[..k] + [p[k]];
    }
  }

  // ---------------------------------------------------------------- counter mode

  /** The counter block plus one, carrying from the last byte up. */
  function Incremented(c: seq<uint8>): (r: seq<uint8>)
    ensures |r| == |c|
    decreases |c|
  {
    if c == [] then []
    else
      var k := |c| - 1;
      if c[k] == 0xff then Incremented(c[..k]) + [0] else c[..k] + [c[k] + 1]
  }

  function Value(c: seq<uint8>): nat {
    if c == [] then 0 else 256 * Value(c[..|c| - 1]) + c[|c| - 1] as int
  }

  function Pow256(n: nat): nat {
    if n == 0 then 1 else 256 * Pow256(n - 1)
  }

  lemma ByteUp(b: uint8)
    ensures b == 0xff ==> b as int == 255 && b + 1 == 0
    ensures b != 0xff ==> (b + 1) as int == b as int + 1 && b as int < 255
  {
  }

  lemma {:induction false} ValueBound(c: seq<uint8>)
    ensures Value(c) < Pow256(|c|)
  {
    if c != [] {
      ValueBound(c[..|c| - 1]);
    }
  }

  /** The big-endian value goes up by one, modulo the size of the block. */
  lemma {:induction false} IncrementedValue(c: seq<uint8>)
    ensures Value(Incremented(c)) == if Value(c) + 1 == Pow256(|c|) then 0 else Value(c) + 1
    decreases |c|
  {
    if c != [] {
      var k := |c| - 1;
      ByteUp(c[k]);
      ValueBound(c[..k]);
      if c[k] == 0xff {
        IncrementedValue(c[..k]);
        var r := Incremented(c);
        assert r[..k] == Incremented(c[..k]);
      } else {
        assert Incremented(c)[..k] == c[..k];
      }
    }
  }

  lemma BlockSize()
    ensures Pow256(16) == 0x1_0000_0000_0000_0000_0000_0000_0000_0000
  {
    assert Pow256(4) == 0x1_0000_0000;
    assert Pow256(8) == 0x1_0000_0000 * Pow256(4);
    assert Pow256(12) == 0x1_0000_0000 * Pow256(8);
  }

  function CounterAfter(c: Block, n: nat): Block {
    if n == 0 then c else Incremented(CounterAfter(c, n - 1))
  }

  lemma SmallCounter(c: Block)
    ensures Value(c) < 0x1_0000_0000_0000_0000_0000_0000_0000_0000
    ensures Value(Incremented(c)) ==
            if Value(c) + 1 == 0x1_0000_0000_0000_0000_0000_0000_0000_0000 then 0 else Value(c) + 1
  {
    hide Value, Pow256, Incremented;
    BlockSize();
    ValueBound(c);
    IncrementedValue(c);
  }

  /** After n increments the counter is n further, modulo 2^128. */
  lemma {:induction false} CounterValue(c: Block, n: nat)
    ensures Value(CounterAfter(c, n)) == (Value(c) + n) % 0x1_0000_0000_0000_0000_0000_0000_0000_0000
  {
    hide Value, Incremented;
    if n == 0 {
      SmallCounter(c);
    } else {
      CounterValue(c, n - 1);
      SmallCounter(CounterAfter(c, n - 1));
      OneMoreMod(Value(c) + n - 1, 0x1_0000_0000_0000_0000_0000_0000_0000_0000);
    }
  }

  lemma OneMoreMod(x: nat, m: nat)
    requires m > 1
    ensures (x + 1) % m == if x % m + 1 == m then 0 else x % m + 1
  {
    var q, r := x / m, x % m;
    assert x == q * m + r;
    if r + 1 == m {
      assert x + 1 == (q + 1) * m;
      DivModUnique(x + 1, m, q + 1, 0);
    } else {
      DivModUnique(x + 1, m, q, r + 1);
    }
  }

  datatype Ctr = Ctr(counter: Block, stream: Block, n: nat, output: seq<uint8>)

  /** The state before byte output: a new stream block is begun at offset 0. */
  function CtrBegin(E: Cipher, s: Ctr): (r: Ctr)
    ensures r.n == s.n && r.output == s.output
  {
    if s.n == 0 then Ctr(Incremented(s.counter), E(s.counter), 0, s.output) else s
  }

  function CtrByte(E: Cipher, s: Ctr, c: uint8): (r: Ctr)
    requires s.n < 16
    ensures r.n < 16 && |r.output| == |s.output| + 1
  {
    var b := CtrBegin(E, s);
    Ctr(b.counter, b.stream, if s.n == 15 then 0 else s.n + 1, s.output + [Xor(b.stream[s.n], c)])
  }

  function CtrAll(E: Cipher, s: Ctr, input: seq<uint8>): (r: Ctr)
    requires s.n < 16
    ensures r.n < 16 && |r.output| == |s.output| + |input|
    decreases |input|
  {
    if input == [] then s else CtrByte(E, CtrAll(E, s, input[..|input| - 1]), input[|input| - 1])
  }

  lemma CtrSteps(E: Cipher, s: Ctr, input: seq<uint8>)
    requires s.n < 16
    ensures input == [] ==> CtrAll(E, s, input) == s
    ensures input != [] ==>
              var k := |input| - 1;
              CtrAll(E, s, input) == CtrByte(E, CtrAll(E, s, input[..k]), input[k])
  {
    hide CtrByte, CtrBegin, Xor, Incremented;
  }

  lemma CtrLast(E: Cipher, s: Ctr, input: seq<uint8>, x: uint8)
    requires s.n < 16
    ensures CtrAll(E, s, input + [x]) == CtrByte(E, CtrAll(E, s, input), x)
  {
    assert (input + [x])[..|input|] == input;
  }

  lemma CtrSnoc(E: Cipher, s: Ctr, input: seq<uint8>, i: nat)
    requires s.n < 16 && i < |input|
    ensures CtrAll(E, s, input[..i + 1]) == CtrByte(E, CtrAll(E, s, input[..i]), input[i])
  {
    assert input[..i + 1][..i] == input[..i];
  }

  lemma {:induction false} CtrInPieces(E: Cipher, s: Ctr, a: seq<uint8>, b: seq<uint8>)
    requires s.n < 16
    ensures CtrAll(E, s, a + b) == CtrAll(E, CtrAll(E, s, a), b)
    decreases |b|
  {
    hide CtrByte;
    if b == [] {
      assert a + b == a;
    } else {
      var k := |b| - 1;
      assert (a + b)[..|a + b| - 1] == a + b[..k];
      CtrInPieces(E, s, a, b[..k]);
    }
  }

  lemma CtrByteTwice(E: Cipher, e: Ctr, d: Ctr, x: uint8, o: uint8)
    requires e.n < 16 && d.n == e.n && d.counter == e.counter && d.stream == e.stream
    requires o == Xor(CtrBegin(E, e).stream[e.n], x)
    ensures var e', d' := CtrByte(E, e, x), CtrByte(E, d, o);
            && e'.output == e.output + [o] && d'.output == d.output + [x]
            && d'.n == e'.n && d'.counter == e'.counter && d'.stream == e'.stream
  {
    hide Xor, Incremented;
    XorTwice(CtrBegin(E, e).stream[e.n], x);
  }

  /** Counter mode is its own inverse. */
  lemma {:induction false} CtrTwice(E: Cipher, counter: Block, stream: Block, n: nat, input: seq<uint8>)
    requires n < 16
    ensures var e := CtrAll(E, Ctr(counter, stream, n, []), input);
            CtrAll(E, Ctr(counter, stream, n, []), e.output) == Ctr(e.counter, e.stream, e.n, input)
    decreases |input|
  {
    hide *;
    var s := Ctr(counter, stream, n, []);
    CtrSteps(E, s, input);
    if input == [] {
      CtrSteps(E, s, []);
    } else {
      var k := |input| - 1;
      var e := CtrAll(E, s, input[..k]);
      var o := Xor(CtrBegin(E, e).stream[e.n], input[k]);
      LastSplit(input);
      CtrTwice(E, counter, stream, n, input[..k]);
      CtrByteTwice(E, e, CtrAll(E, s, e.output), input[k], o);
      CtrLast(E, s, e.output, o);
    }
  }

  /** Blocks begun by `t` bytes from offset 0. */
  function Begun(t: nat): nat {
    (t + 15) / 16
  }

  /** The key block for block `j` of a stream resumed at offset `n`: a saved block, if one is begun, comes first. */
  function KeyBlock(E: Cipher, counter: Block, stream: Block, n: nat, j: nat): Block {
    if n == 0 then E(CounterAfter(counter, j))
    else if j == 0 then stream
    else E(CounterAfter(counter, j - 1))
  }

  /** Section 6.5: byte `t` is combined with its byte of the encrypted counter of its block. */
  ghost predicate IsCtr(E: Cipher, counter: Block, stream: Block, n: nat, p: seq<uint8>, c: seq<uint8>) {
    |c| == |p| && forall t: nat | t < |p| ::
      c[t] == KeyBlock(E, counter, stream, n, (n + t) / 16)[(n + t) % 16] ^ p[t]
  }

  /** Blocks begun by `t` bytes from offset `n`. */
  function BegunFrom(n: nat, t: nat): (r: nat) {
    Begun(n + t) - Begun(n)
  }

  ghost predicate CtrState(E: Cipher, counter: Block, stream: Block, n: nat, t: nat, s: Ctr) {
    && s.n == (n + t) % 16 && s.counter == CounterAfter(counter, BegunFrom(n, t))
    && (s.n != 0 ==> s.stream == KeyBlock(E, counter, stream, n, (n + t) / 16))
  }

  lemma BegunOneMore(t: nat)
    ensures t % 16 == 0 ==> Begun(t) == t / 16 && Begun(t + 1) == Begun(t) + 1
    ensures t % 16 != 0 ==> Begun(t + 1) == Begun(t)
    ensures t % 16 == 15 ==> (t + 1) % 16 == 0
    ensures t % 16 != 15 ==> (t + 1) % 16 == t % 16 + 1 && (t + 1) / 16 == t / 16
  {
  }

  /** The key block that is begun at the end of a block is that of the counter there. */
  lemma NextBlock(E: Cipher, counter: Block, stream: Block, n: nat, t: nat)
    requires n < 16 && (n + t) % 16 == 0
    ensures KeyBlock(E, counter, stream, n, (n + t) / 16) == E(CounterAfter(counter, BegunFrom(n, t)))
    ensures BegunFrom(n, t + 1) == BegunFrom(n, t) + 1
  {
    BegunOneMore(n + t);
  }

  lemma SameBlock(n: nat, t: nat)
    requires (n + t) % 16 != 0
    ensures BegunFrom(n, t + 1) == BegunFrom(n, t)
  {
    BegunOneMore(n + t);
  }

  lemma OneMoreIncrement(counter: Block, k: nat)
    ensures CounterAfter(counter, k + 1) == Incremented(CounterAfter(counter, k))
  {
  }

  lemma CtrBeginsBlock(E: Cipher, counter: Block, stream: Block, n: nat, t: nat, s: Ctr)
    requires n < 16 && CtrState(E, counter, stream, n, t, s)
    ensures CtrBegin(E, s).stream == KeyBlock(E, counter, stream, n, (n + t) / 16)
    ensures CtrBegin(E, s).counter == CounterAfter(counter, BegunFrom(n, t + 1))
  {
    hide Incremented, CounterAfter, KeyBlock, BegunFrom;
    if (n + t) % 16 == 0 {
      NextBlock(E, counter, stream, n, t);
      OneMoreIncrement(counter, BegunFrom(n, t));
    } else {
      SameBlock(n, t);
    }
  }

  lemma CtrOneMore(E: Cipher, counter: Block, stream: Block, n: nat, p: seq<uint8>, s: Ctr, x: uint8)
    requires n < 16 && IsCtr(E, counter, stream, n, p, s.output) && CtrState(E, counter, stream, n, |p|, s)
    ensures s.n < 16 && IsCtr(E, counter, stream, n, p + [x], CtrByte(E, s, x).output)
    ensures CtrState(E, counter, stream, n, |p| + 1, CtrByte(E, s, x))
  {
    hide Xor, CtrBegin, KeyBlock, BegunFrom, CounterAfter;
    BegunOneMore(n + |p|);
    CtrBeginsBlock(E, counter, stream, n, |p|, s);
    XorIs(CtrBegin(E, s).stream[s.n], x);
  }

  lemma CtrEmpty(E: Cipher, counter: Block, stream: Block, n: nat)
    requires n < 16
    ensures IsCtr(E, counter, stream, n, [], []) && CtrState(E, counter, stream, n, 0, Ctr(counter, stream, n, []))
  {
  }

  /** A stream resumed at any offset is counter mode: first the rest of the saved block, then the counter's blocks. */
  lemma {:induction false} CtrIsStandard(E: Cipher, counter: Block, stream: Block, n: nat, p: seq<uint8>)
    requires n < 16
    ensures var r := CtrAll(E, Ctr(counter, stream, n, []), p);
            IsCtr(E, counter, stream, n, p, r.output) && CtrState(E, counter, stream, n, |p|, r)
    decreases |p|
  {
    hide *;
    var s := Ctr(counter, stream, n, []);
    CtrSteps(E, s, p);
    if p == [] {
      CtrEmpty(E, counter, stream, n);
    } else {
      var k := |p| - 1;
      LastSplit(p);
      CtrIsStandard(E, counter, stream, n, p[..k]);
      CtrOneMore(E, counter, stream, n, p[..k], CtrAll(E, s, p[..k]), p[k]);
    }
  }

  /**
   From any offset the counter goes up once for each block begun, as a big-endian number modulo
   2^128: with a block begun already, the first new one begins after its rest.
   */
  lemma {:induction false} CounterCountsBlocks(E: Cipher, counter: Block, stream: Block, n: nat, p: seq<uint8>)
    requires n < 16
    ensures var r := CtrAll(E, Ctr(counter, stream, n, []), p);
            && r.n == (n + |p|) % 16
            && Value(r.counter) == (Value(counter) + (n + |p| + 15) / 16 - (if n == 0 then 0 else 1))
                                   % 0x1_0000_0000_0000_0000_0000_0000_0000_0000
  {
    hide CtrAll, Value, Incremented, CounterAfter, KeyBlock;
    CtrIsStandard(E, counter, stream, n, p);
    CounterValue(counter, BegunFrom(n, |p|));
  }

  // ---------------------------------------------------------------- the loops, in place if need be

  /** Encrypts a block into a buffer, which may be the one it came from. */
  method CryptEcb(E: Cipher, input: Block, output: array<uint8>)
    requires output.Length == 16
    modifies output
    ensures output[..] == E(input)
  {
    var block := E(input);
    for i := 0 to 16
      invariant output[..i] == block[..i]
    {
      output[i] := block[i];
    }
  }

  lemma CfbStep(E: Cipher, s: Cfb, input: seq<uint8>, i: nat, decrypt: bool, iv: Block, o: uint8)
    requires s.n < 16 && i < |input|
    requires var t := Cfb128(E, s, input[..i], decrypt);
             iv == (if t.n == 0 then E(t.iv) else t.iv) && o == Xor(iv[t.n], input[i])
    ensures var t := Cfb128(E, s, input[..i], decrypt);
            Cfb128(E, s, input[..i + 1], decrypt) ==
            Cfb(iv[t.n := if decrypt then input[i] else o], if t.n == 15 then 0 else t.n + 1, t.output + [o])
  {
    CfbSnoc(E, s, input, i, decrypt);
    CfbByteIs(E, Cfb128(E, s, input[..i], decrypt), input[i], decrypt);
  }

  method CryptCfb128(E: Cipher, decrypt: bool, length: nat, ivOff: nat, iv: array<uint8>, input: array<uint8>,
      output: array<uint8>)
    returns (n: nat)
    requires iv.Length == 16 && ivOff < 16 && length <= input.Length && length <= output.Length
    requires iv != input && iv != output
    modifies iv, output
    ensures iv.Length == 16 && n < 16
    ensures Cfb128(E, Cfb(old(iv[..]), ivOff, []), old(input[..length]), decrypt) == Cfb(iv[..], n, output[..length])
    ensures output[length..] == old(output[length..])
  {
    hide *;
    n := ivOff;
    ghost var s, text, rest := Cfb(iv[..], ivOff, []), input[..length], output[length..];
    CfbSteps(E, s, [], decrypt);
    assert text[..0] == [] && output[..0] == [];
    var i := 0;
    while i < length
      invariant 0 <= i <= length && n < 16
      invariant Cfb128(E, s, text[..i], decrypt) == Cfb(iv[..], n, output[..i])
      invariant forall j | i <= j < length :: input[j] == text[j]
      invariant output[length..] == rest
    {
      if n == 0 {
        CryptEcb(E, iv[..], iv);
      }
      var c := input[i];
      ghost var reg, front := iv[..], output[..i];
      var o := Xor(iv[n], c);
      CfbStep(E, s, text, i, decrypt, reg, o);
      output[i] := o;
      iv[n] := if decrypt then c else o;
      assert iv[..] == reg[n := if decrypt then c else o] && output[..i + 1] == front + [o];
      n := if n == 15 then 0 else n + 1;
      i := i + 1;
    }
    assert text[..length] == text;
  }

  lemma Cfb8Step(E: Cipher, s: Cfb8, input: seq<uint8>, i: nat, decrypt: bool, o: uint8)
    requires i < |input|
    requires o == Xor(E(Cfb8All(E, s, input[..i], decrypt).iv)[0], input[i])
    ensures var t := Cfb8All(E, s, input[..i], decrypt);
            Cfb8All(E, s, input[..i + 1], decrypt) ==
            Cfb8(t.iv[1..] + [if decrypt then input[i] else o], t.output + [o])
  {
    Cfb8Snoc(E, s, input, i, decrypt);
  }

  lemma Cfb8Nothing(E: Cipher, s: Cfb8, decrypt: bool)
    ensures Cfb8All(E, s, [], decrypt) == s
  {
  }

  method CryptCfb8(E: Cipher, decrypt: bool, length: nat, iv: array<uint8>, input: array<uint8>, output: array<uint8>)
    requires iv.Length == 16 && length <= input.Length && length <= output.Length
    requires iv != input && iv != output
    modifies iv, output
    ensures iv.Length == 16
    ensures Cfb8All(E, Cfb8(old(iv[..]), []), old(input[..length]), decrypt) == Cfb8(iv[..], output[..length])
    ensures output[length..] == old(output[length..])
  {
    hide *;
    ghost var s, text, rest := Cfb8(iv[..], []), input[..length], output[length..];
    Cfb8Nothing(E, s, decrypt);
    assert text[..0] == [] && output[..0] == [];
    var i := 0;
    while i < length
      invariant 0 <= i <= length
      invariant Cfb8All(E, s, text[..i], decrypt) == Cfb8(iv[..], output[..i])
      invariant forall j | i <= j < length :: input[j] == text[j]
      invariant output[length..] == rest
    {
      var ov := iv[..];
      CryptEcb(E, iv[..], iv);
      var x := input[i];
      ghost var front := output[..i];
      var c := Xor(iv[0], x);
      Cfb8Step(E, s, text, i, decrypt, c);
      output[i] := c;
      var ov16 := if decrypt then x else c;
      MoveUp(iv, ov, ov16);
      assert output[..i + 1] == front + [c];
      i := i + 1;
    }
    assert text[..length] == text;
  }

  method MoveUp(iv: array<uint8>, ov: Block, last: uint8)
    requires iv.Length == 16
    modifies iv
    ensures iv[..] == ov[1..] + [last]
  {
    for k := 0 to 15
      invariant iv[..k] == ov[1..k + 1]
    {
      iv[k] := ov[k + 1];
    }
    iv[15] := last;
    assert iv[..15] == ov[1..];
    assert iv[..] == iv[..15] + [iv[15]];
  }

  lemma IncrementedTail(c: seq<uint8>, i: nat)
    requires i < |c|
    ensures c[i] == 0xff ==> Incremented(c[..i + 1]) == Incremented(c[..i]) + [0]
    ensures c[i] != 0xff ==> Incremented(c[..i + 1]) == c[..i] + [c[i] + 1]
  {
    var d := c[..i + 1];
    assert d != [] && |d| - 1 == i && d[i] == c[i] && d[..i] == c[..i];
    assert Incremented(d) == if d[i] == 0xff then Incremented(d[..i]) + [0] else d[..i] + [d[i] + 1];
  }

  lemma SetLast(c: seq<uint8>, i: nat, tail: seq<uint8>, b: uint8)
    requires 0 < i <= |c|
    ensures (c[..i] + tail)[i - 1] == c[i - 1]
    ensures (c[..i] + tail)[i - 1 := b] == c[..i - 1] + ([b] + tail)
  {
  }

  lemma TailAssociates(a: seq<uint8>, b: uint8, c: seq<uint8>)
    ensures a + [b] + c == a + ([b] + c)
  {
  }

  lemma WholeCounter(c: seq<uint8>, n: nat)
    requires n == |c|
    ensures c[..n] == c && c[..n] + [] == c && Incremented(c) == Incremented(c[..n]) + []
  {
    hide Incremented;
    assert c[..n] == c;
  }

  /** The carry loop of the counter. */
  method Increment(nonceCounter: array<uint8>)
    requires nonceCounter.Length == 16
    modifies nonceCounter
    ensures nonceCounter.Length == 16 && nonceCounter[..] == Incremented(old(nonceCounter[..]))
  {
    hide Incremented;
    ghost var c, tail := nonceCounter[..], [];
    var i := 16;
    WholeCounter(c, 16);
    while i > 0
      invariant 0 <= i <= 16 && nonceCounter[..] == c[..i] + tail
      invariant Incremented(c) == Incremented(c[..i]) + tail
    {
      var next := nonceCounter[i - 1] + 1;
      SetLast(c, i, tail, next);
      ByteUp(c[i - 1]);
      IncrementedTail(c, i - 1);
      nonceCounter[i - 1] := next;
      TailAssociates(c[..i - 1], next, tail);
      if nonceCounter[i - 1] != 0 {
        return;
      }
      TailAssociates(Incremented(c[..i - 1]), 0, tail);
      tail := [next] + tail;
      i := i - 1;
    }
    NothingToIncrement(c);
  }

  lemma NothingToIncrement(c: seq<uint8>)
    ensures c[..0] == [] && Incremented([]) == []
  {
  }

  lemma CtrStep(E: Cipher, s: Ctr, input: seq<uint8>, i: nat, o: uint8)
    requires s.n < 16 && i < |input|
    requires var t := CtrAll(E, s, input[..i]); o == Xor(CtrBegin(E, t).stream[t.n], input[i])
    ensures var t := CtrAll(E, s, input[..i]);
            CtrAll(E, s, input[..i + 1]) ==
            Ctr(CtrBegin(E, t).counter, CtrBegin(E, t).stream, if t.n == 15 then 0 else t.n + 1, t.output + [o])
  {
    hide Xor, Incremented;
    CtrSnoc(E, s, input, i);
  }

  lemma CtrBegins(E: Cipher, s: Ctr)
    ensures CtrBegin(E, s).counter == if s.n == 0 then Incremented(s.counter) else s.counter
    ensures CtrBegin(E, s).stream == if s.n == 0 then E(s.counter) else s.stream
  {
  }

  /** At the end of a block the next one is encrypted and the counter goes up. */
  method BeginBlock(E: Cipher, n: nat, nonceCounter: array<uint8>, streamBlock: array<uint8>)
    requires nonceCounter.Length == 16 && streamBlock.Length == 16 && nonceCounter != streamBlock
    modifies nonceCounter, streamBlock
    ensures nonceCounter.Length == 16 && streamBlock.Length == 16
    ensures nonceCounter[..] == if n == 0 then Incremented(old(nonceCounter[..])) else old(nonceCounter[..])
    ensures streamBlock[..] == if n == 0 then E(old(nonceCounter[..])) else old(streamBlock[..])
  {
    hide *;
    if n == 0 {
      CryptEcb(E, nonceCounter[..], streamBlock);
      Increment(nonceCounter);
    }
  }

  method CryptCtr(E: Cipher, length: nat, ncOff: nat, nonceCounter: array<uint8>, streamBlock: array<uint8>,
                  input: array<uint8>, output: array<uint8>) returns (n: nat)
    requires nonceCounter.Length == 16 && streamBlock.Length == 16 && ncOff < 16
    requires length <= input.Length && length <= output.Length
    requires nonceCounter != streamBlock && nonceCounter !in {input, output} && streamBlock !in {input, output}
    modifies nonceCounter, streamBlock, output
    ensures nonceCounter.Length == 16 && streamBlock.Length == 16 && n < 16
    ensures CtrAll(E, Ctr(old(nonceCounter[..]), old(streamBlock[..]), ncOff, []), old(input[..length])) ==
            Ctr(nonceCounter[..], streamBlock[..], n, output[..length])
    ensures output[length..] == old(output[length..])
  {
    hide *;
    n := ncOff;
    ghost var s, text, rest := Ctr(nonceCounter[..], streamBlock[..], ncOff, []), input[..length], output[length..];
    CtrSteps(E, s, []);
    assert text[..0] == [] && output[..0] == [];
    var i := 0;
    while i < length
      invariant 0 <= i <= length && n < 16
      invariant CtrAll(E, s, text[..i]) == Ctr(nonceCounter[..], streamBlock[..], n, output[..i])
      invariant forall j | i <= j < length :: input[j] == text[j]
      invariant output[length..] == rest
    {
      ghost var t := CtrAll(E, s, text[..i]);
      CtrBegins(E, t);
      BeginBlock(E, n, nonceCounter, streamBlock);
      var c := input[i];
      ghost var front := output[..i];
      var o := Xor(streamBlock[n], c);
      CtrStep(E, s, text, i, o);
      output[i] := o;
      assert output[..i + 1] == front + [o];
      n := if n == 15 then 0 else n + 1;
      i := i + 1;
    }
    assert text[..length] == text;
  }
}
