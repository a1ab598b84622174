/**
  The examples of section 5.7 of RFC 6455, byte for byte.
 */
module WsExamples {
  import opened Prelude
  import opened Words
  import opened WsFrame

  const HELLO: Bytes := [0x48, 0x65, 0x6c, 0x6c, 0x6f]
  const KEY: Key := [0x37, 0xfa, 0x21, 0x3d]

  lemma UnmaskedText()
    ensures Encode(Frame(true, Text, HELLO), None) == [0x81, 0x05] + HELLO
  {
  }

  lemma Xor0(x: byte, k: byte)
    requires x == 0x48 && k == 0x37
    ensures Xor(x, k) == 0x7f
  {
    assert Xor(0x4, 0x3) == 0x7;
    assert Xor(0x48, 0x37) == 0x7f;
  }

  lemma Xor1(x: byte, k: byte)
    requires x == 0x65 && k == 0xfa
    ensures Xor(x, k) == 0x9f
  {
    assert Xor(0x6, 0xf) == 0x9;
    assert Xor(0x65, 0xfa) == 0x9f;
  }

  lemma Xor2(x: byte, k: byte)
    requires x == 0x6c && k == 0x21
    ensures Xor(x, k) == 0x4d
  {
    assert Xor(0x6, 0x2) == 0x4;
    assert Xor(0x6c, 0x21) == 0x4d;
  }

  lemma Xor3(x: byte, k: byte)
    requires x == 0x6c && k == 0x3d
    ensures Xor(x, k) == 0x51
  {
    assert Xor(0x6, 0x3) == 0x5;
    assert Xor(0x6c, 0x3d) == 0x51;
  }

  lemma Xor4(x: byte, k: byte)
    requires x == 0x6f && k == 0x37
    ensures Xor(x, k) == 0x58
  {
    assert Xor(0x6, 0x3) == 0x5;
    assert Xor(0x6f, 0x37) == 0x58;
  }

  lemma MaskedFive(p: Bytes, key: Key, r: Bytes)
    requires |p| == 5 && |r| == 5
    requires Xor(p[0], key[0]) == r[0] && Xor(p[1], key[1]) == r[1] && Xor(p[2], key[2]) == r[2]
    requires Xor(p[3], key[3]) == r[3] && Xor(p[4], key[0]) == r[4]
    ensures Masked(p, key) == r
  {
    var m := Masked(p, key);
    assert m[0] == r[0] && m[1] == r[1] && m[2] == r[2] && m[3] == r[3] && m[4] == r[4];
  }

  lemma MaskedHello(p: Bytes, key: Key, r: Bytes)
    requires p == HELLO && key == KEY && r == [0x7f, 0x9f, 0x4d, 0x51, 0x58]
    ensures Masked(p, key) == r
  {
    Xor0(p[0], key[0]);
    Xor1(p[1], key[1]);
    Xor2(p[2], key[2]);
    Xor3(p[3], key[3]);
    Xor4(p[4], key[0]);
    MaskedFive(p, key, r);
  }

  /** A masked text message. */
  lemma MaskedText()
    ensures Encode(Frame(true, Text, HELLO), Some(KEY)) ==
            [0x81, 0x85, 0x37, 0xfa, 0x21, 0x3d, 0x7f, 0x9f, 0x4d, 0x51, 0x58]
  {
    MaskedHello(HELLO, KEY, [0x7f, 0x9f, 0x4d, 0x51, 0x58]);
  }

  /** A text message in two fragments. */
  lemma FragmentedText()
    ensures Encode(Frame(false, Text, HELLO[..3]), None) == [0x01, 0x03, 0x48, 0x65, 0x6c]
    ensures Encode(Frame(true, Continuation, HELLO[3..]), None) == [0x80, 0x02, 0x6c, 0x6f]
  {
  }

  /** A ping, and its masked answer. */
  lemma PingAndPong()
    ensures Encode(Frame(true, PingOp, HELLO), None) == [0x89, 0x05] + HELLO
    ensures Encode(Frame(true, PongOp, HELLO), Some(KEY)) ==
            [0x8a, 0x85, 0x37, 0xfa, 0x21, 0x3d, 0x7f, 0x9f, 0x4d, 0x51, 0x58]
  {
    MaskedHello(HELLO, KEY, [0x7f, 0x9f, 0x4d, 0x51, 0x58]);
  }

  /** 256 bytes, and 64 KiB, of binary data in one frame. */
  lemma LongBinary(p: Bytes)
    ensures |p| == 256 ==> Encode(Frame(true, Binary, p), None) == [0x82, 0x7e, 0x01, 0x00] + p
    ensures |p| == 65536 ==>
      Encode(Frame(true, Binary, p), None) == [0x82, 0x7f, 0, 0, 0, 0, 0, 0x01, 0, 0] + p
  {
    assert ToBe(256, 2) == [1, 0];
    assert ToBe(65536, 8) == [0, 0, 0, 0, 0, 1, 0, 0];
  }

  /** And a normal close: the status 1000. */
  lemma NormalClosure()
    ensures Encode(Frame(true, CloseOp, ToBe(1000, 2)), None) == [0x88, 0x02, 0x03, 0xe8]
  {
    assert ToBe(1000, 2) == [3, 232];
  }
}
