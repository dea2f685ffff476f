// One byte of the frame bitmap.
module Bits {

  // 1 << b
  function Mask(b: nat): bv8
    requires b < 8
  {
    if b == 0 then 1 else if b == 1 then 2 else if b == 2 then 4 else if b == 3 then 8
    else if b == 4 then 16 else if b == 5 then 32 else if b == 6 then 64 else 128
  }

  predicate Taken(byte: bv8, b: nat)
    requires b < 8
  {
    byte & Mask(b) != 0
  }

  function SetBit(byte: bv8, b: nat): (r: bv8)
    requires b < 8
    ensures forall j :: 0 <= j < 8 ==> (Taken(r, j) <==> j == b || Taken(byte, j))
  {
    byte | Mask(b)
  }

  function ClearBit(byte: bv8, b: nat): (r: bv8)
    requires b < 8
    ensures forall j :: 0 <= j < 8 ==> (Taken(r, j) <==> j != b && Taken(byte, j))
  {
    byte & !Mask(b)
  }

  lemma FullByte(byte: bv8)
    ensures byte == 0xFF <==> forall j :: 0 <= j < 8 ==> Taken(byte, j)
  {
    if forall j :: 0 <= j < 8 ==> Taken(byte, j) {
      assert Taken(byte, 0) && Taken(byte, 1) && Taken(byte, 2) && Taken(byte, 3);
      assert Taken(byte, 4) && Taken(byte, 5) && Taken(byte, 6) && Taken(byte, 7);
    }
  }

  lemma EmptyByte()
    ensures forall j :: 0 <= j < 8 ==> !Taken(0, j)
  {
  }
}
