/** 32-bit words as four bytes, most significant byte first. */
module BigEndian {
  import opened Arith
  import opened Words
  import opened Digits

  function Be32(w: u32): (s: seq<u8>)
    ensures |s| == 4 && Num(256, s) == w
  {
    var s := [w / 0x100_0000, w / 0x1_0000 % 0x100, w / 0x100 % 0x100, w % 0x100];
    NumFour(256, s);
    FourBytesOf(w);
    s
  }

  lemma FourBytesOf(w: u32)
    ensures ((w / 0x100_0000 * 0x100 + w / 0x1_0000 % 0x100) * 0x100 + w / 0x100 % 0x100) * 0x100 + w % 0x100 == w
  {
    DivDiv(w, 0x100, 0x100);
    DivDiv(w, 0x1_0000, 0x100);
    var w1, w2 := w / 0x100, w / 0x1_0000;
    assert w == w1 * 0x100 + w % 0x100;
    assert w1 == w2 * 0x100 + w1 % 0x100;
    assert w2 == w / 0x100_0000 * 0x100 + w2 % 0x100;
  }
}
