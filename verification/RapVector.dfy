/** A known answer for the key mixing of scripts/decrypt_self.py: the zero block through the
    five rounds.  K is the key between rounds, X after a round's first loop, C after its second,
    B the borrows of its third. */
module RapVector {
  import opened Bytes
  import opened Rap

  const K0: Block := [0x00, 0x00, 0x00, 0x00, 0x00, 0x00, 0x00, 0x00,
                      0x00, 0x00, 0x00, 0x00, 0x00, 0x00, 0x00, 0x00]

  const X1: Block := [0xA9, 0x3E, 0x1F, 0xD6, 0x7C, 0x55, 0xA3, 0x29,
                      0xB7, 0x5F, 0xDD, 0xA6, 0x2A, 0x95, 0xC7, 0xA5]
  const C1: Block := [0x80, 0x42, 0xA8, 0xFC, 0xDF, 0xFC, 0x75, 0x36,
                      0x12, 0xCA, 0x88, 0x98, 0x2A, 0x52, 0x1A, 0x03]
  const B1: seq<nat> := [0, 1, 0, 0, 0, 1, 0, 1, 1, 0, 1, 0, 0, 0, 1, 1, 0]
  const K1: Block := [0x18, 0x6E, 0x4A, 0x58, 0xB6, 0x8F, 0x75, 0xCC,
                      0xC3, 0x4D, 0x35, 0x1C, 0x35, 0xFE, 0x8E, 0x8F]

  lemma Masks1()
    ensures XorIs(0x00, 0x2A, 0x2A) && XorIs(0x00, 0xD6, 0xD6) && XorIs(0x00, 0xA3, 0xA3) && XorIs(0x00, 0x7C, 0x7C)
    ensures XorIs(0x00, 0x3E, 0x3E) && XorIs(0x00, 0xA6, 0xA6) && XorIs(0x00, 0xA5, 0xA5) && XorIs(0x00, 0xB7, 0xB7)
    ensures XorIs(0x00, 0x1F, 0x1F) && XorIs(0x00, 0x29, 0x29) && XorIs(0x00, 0xA9, 0xA9) && XorIs(0x00, 0x55, 0x55)
    ensures XorIs(0x00, 0xDD, 0xDD) && XorIs(0x00, 0xC7, 0xC7) && XorIs(0x00, 0x95, 0x95) && XorIs(0x00, 0x5F, 0x5F)
  {
  }

  lemma Links1()
    ensures XorIs(0xD6, 0x2A, 0xFC) && XorIs(0xA3, 0xD6, 0x75) && XorIs(0x7C, 0xA3, 0xDF) && XorIs(0x3E, 0x7C, 0x42)
    ensures XorIs(0xA6, 0x3E, 0x98) && XorIs(0xA5, 0xA6, 0x03) && XorIs(0xB7, 0xA5, 0x12) && XorIs(0x1F, 0xB7, 0xA8)
    ensures XorIs(0x29, 0x1F, 0x36) && XorIs(0xA9, 0x29, 0x80) && XorIs(0x55, 0xA9, 0xFC) && XorIs(0xDD, 0x55, 0x88)
    ensures XorIs(0xC7, 0xDD, 0x1A) && XorIs(0x95, 0xC7, 0x52) && XorIs(0x5F, 0x95, 0xCA)
  {
  }

  lemma Places1A()
    ensures forall i: nat :: 0 <= i < 4 ==> Place(K0, X1, C1, B1, K1, i)
  {
    hide XorIs;
    Masks1();
    Links1();
    assert Place(K0, X1, C1, B1, K1, 0) && Place(K0, X1, C1, B1, K1, 1);
    assert Place(K0, X1, C1, B1, K1, 2) && Place(K0, X1, C1, B1, K1, 3);
  }

  lemma Places1B()
    ensures forall i: nat :: 4 <= i < 8 ==> Place(K0, X1, C1, B1, K1, i)
  {
    hide XorIs;
    Masks1();
    Links1();
    assert Place(K0, X1, C1, B1, K1, 4) && Place(K0, X1, C1, B1, K1, 5);
    assert Place(K0, X1, C1, B1, K1, 6) && Place(K0, X1, C1, B1, K1, 7);
  }

  lemma Places1C()
    ensures forall i: nat :: 8 <= i < 12 ==> Place(K0, X1, C1, B1, K1, i)
  {
    hide XorIs;
    Masks1();
    Links1();
    assert Place(K0, X1, C1, B1, K1, 8) && Place(K0, X1, C1, B1, K1, 9);
    assert Place(K0, X1, C1, B1, K1, 10) && Place(K0, X1, C1, B1, K1, 11);
  }

  lemma Places1D()
    ensures forall i: nat :: 12 <= i < 16 ==> Place(K0, X1, C1, B1, K1, i)
  {
    hide XorIs;
    Masks1();
    Links1();
    assert Place(K0, X1, C1, B1, K1, 12) && Place(K0, X1, C1, B1, K1, 13);
    assert Place(K0, X1, C1, B1, K1, 14) && Place(K0, X1, C1, B1, K1, 15);
  }

  lemma Round1Is()
    ensures Round(InOrder(K0)) == InOrder(K1)
  {
    hide Place;
    Places1A();
    Places1B();
    Places1C();
    Places1D();
    RoundByPlaces(K0, X1, C1, B1, K1);
  }

  const X2: Block := [0xB1, 0x50, 0x55, 0x8E, 0xCA, 0xDA, 0xD6, 0xE5,
                      0x74, 0x12, 0xE8, 0xBA, 0x1F, 0x6B, 0x49, 0x2A]
  const C2: Block := [0x54, 0x9A, 0x21, 0x91, 0x1C, 0x6B, 0x58, 0xB0,
                      0x5E, 0x79, 0x32, 0xEA, 0x1F, 0x22, 0xA1, 0x90]
  const B2: seq<nat> := [0, 1, 1, 0, 1, 1, 0, 0, 0, 1, 0, 1, 1, 1, 0, 1, 1]
  const K2: Block := [0xED, 0xC5, 0xC4, 0xED, 0xF3, 0xFD, 0x57, 0x45,
                      0x10, 0xFC, 0xDE, 0x6E, 0x2A, 0xCF, 0x14, 0x1C]

  lemma Masks2()
    ensures XorIs(0x35, 0x2A, 0x1F) && XorIs(0x58, 0xD6, 0x8E) && XorIs(0x75, 0xA3, 0xD6) && XorIs(0xB6, 0x7C, 0xCA)
    ensures XorIs(0x6E, 0x3E, 0x50) && XorIs(0x1C, 0xA6, 0xBA) && XorIs(0x8F, 0xA5, 0x2A) && XorIs(0xC3, 0xB7, 0x74)
    ensures XorIs(0x4A, 0x1F, 0x55) && XorIs(0xCC, 0x29, 0xE5) && XorIs(0x18, 0xA9, 0xB1) && XorIs(0x8F, 0x55, 0xDA)
    ensures XorIs(0x35, 0xDD, 0xE8) && XorIs(0x8E, 0xC7, 0x49) && XorIs(0xFE, 0x95, 0x6B) && XorIs(0x4D, 0x5F, 0x12)
  {
  }

  lemma Links2()
    ensures XorIs(0x8E, 0x1F, 0x91) && XorIs(0xD6, 0x8E, 0x58) && XorIs(0xCA, 0xD6, 0x1C) && XorIs(0x50, 0xCA, 0x9A)
    ensures XorIs(0xBA, 0x50, 0xEA) && XorIs(0x2A, 0xBA, 0x90) && XorIs(0x74, 0x2A, 0x5E) && XorIs(0x55, 0x74, 0x21)
    ensures XorIs(0xE5, 0x55, 0xB0) && XorIs(0xB1, 0xE5, 0x54) && XorIs(0xDA, 0xB1, 0x6B) && XorIs(0xE8, 0xDA, 0x32)
    ensures XorIs(0x49, 0xE8, 0xA1) && XorIs(0x6B, 0x49, 0x22) && XorIs(0x12, 0x6B, 0x79)
  {
  }

  lemma Places2A()
    ensures forall i: nat :: 0 <= i < 4 ==> Place(K1, X2, C2, B2, K2, i)
  {
    hide XorIs;
    Masks2();
    Links2();
    assert Place(K1, X2, C2, B2, K2, 0) && Place(K1, X2, C2, B2, K2, 1);
    assert Place(K1, X2, C2, B2, K2, 2) && Place(K1, X2, C2, B2, K2, 3);
  }

  lemma Places2B()
    ensures forall i: nat :: 4 <= i < 8 ==> Place(K1, X2, C2, B2, K2, i)
  {
    hide XorIs;
    Masks2();
    Links2();
    assert Place(K1, X2, C2, B2, K2, 4) && Place(K1, X2, C2, B2, K2, 5);
    assert Place(K1, X2, C2, B2, K2, 6) && Place(K1, X2, C2, B2, K2, 7);
  }

  lemma Places2C()
    ensures forall i: nat :: 8 <= i < 12 ==> Place(K1, X2, C2, B2, K2, i)
  {
    hide XorIs;
    Masks2();
    Links2();
    assert Place(K1, X2, C2, B2, K2, 8) && Place(K1, X2, C2, B2, K2, 9);
    assert Place(K1, X2, C2, B2, K2, 10) && Place(K1, X2, C2, B2, K2, 11);
  }

  lemma Places2D()
    ensures forall i: nat :: 12 <= i < 16 ==> Place(K1, X2, C2, B2, K2, i)
  {
    hide XorIs;
    Masks2();
    Links2();
    assert Place(K1, X2, C2, B2, K2, 12) && Place(K1, X2, C2, B2, K2, 13);
    assert Place(K1, X2, C2, B2, K2, 14) && Place(K1, X2, C2, B2, K2, 15);
  }

  lemma Round2Is()
    ensures Round(InOrder(K1)) == InOrder(K2)
  {
    hide Place;
    Places2A();
    Places2B();
    Places2C();
    Places2D();
    RoundByPlaces(K1, X2, C2, B2, K2);
  }

  const X3: Block := [0x44, 0xFB, 0xDB, 0x3B, 0x8F, 0xA8, 0xF4, 0x6C,
                      0xA7, 0xA3, 0x03, 0xC8, 0x00, 0x5A, 0xD3, 0xB9]
  const C3: Block := [0x28, 0x74, 0x7C, 0x3B, 0x7B, 0xEC, 0xCF, 0xB7,
                      0x1E, 0xF9, 0xAB, 0x33, 0x00, 0x89, 0xD0, 0x71]
  const B3: seq<nat> := [0, 1, 1, 0, 0, 1, 1, 1, 1, 0, 0, 1, 0, 0, 0, 0, 0]
  const K3: Block := [0xC1, 0xA0, 0x1E, 0x97, 0x52, 0x7E, 0xCE, 0x4D,
                      0xCF, 0x7D, 0x58, 0xB7, 0x0B, 0x36, 0x44, 0xFC]

  lemma Masks3()
    ensures XorIs(0x2A, 0x2A, 0x00) && XorIs(0xED, 0xD6, 0x3B) && XorIs(0x57, 0xA3, 0xF4) && XorIs(0xF3, 0x7C, 0x8F)
    ensures XorIs(0xC5, 0x3E, 0xFB) && XorIs(0x6E, 0xA6, 0xC8) && XorIs(0x1C, 0xA5, 0xB9) && XorIs(0x10, 0xB7, 0xA7)
    ensures XorIs(0xC4, 0x1F, 0xDB) && XorIs(0x45, 0x29, 0x6C) && XorIs(0xED, 0xA9, 0x44) && XorIs(0xFD, 0x55, 0xA8)
    ensures XorIs(0xDE, 0xDD, 0x03) && XorIs(0x14, 0xC7, 0xD3) && XorIs(0xCF, 0x95, 0x5A) && XorIs(0xFC, 0x5F, 0xA3)
  {
  }

  lemma Links3()
    ensures XorIs(0x3B, 0x00, 0x3B) && XorIs(0xF4, 0x3B, 0xCF) && XorIs(0x8F, 0xF4, 0x7B) && XorIs(0xFB, 0x8F, 0x74)
    ensures XorIs(0xC8, 0xFB, 0x33) && XorIs(0xB9, 0xC8, 0x71) && XorIs(0xA7, 0xB9, 0x1E) && XorIs(0xDB, 0xA7, 0x7C)
    ensures XorIs(0x6C, 0xDB, 0xB7) && XorIs(0x44, 0x6C, 0x28) && XorIs(0xA8, 0x44, 0xEC) && XorIs(0x03, 0xA8, 0xAB)
    ensures XorIs(0xD3, 0x03, 0xD0) && XorIs(0x5A, 0xD3, 0x89) && XorIs(0xA3, 0x5A, 0xF9)
  {
  }

  lemma Places3A()
    ensures forall i: nat :: 0 <= i < 4 ==> Place(K2, X3, C3, B3, K3, i)
  {
    hide XorIs;
    Masks3();
    Links3();
    assert Place(K2, X3, C3, B3, K3, 0) && Place(K2, X3, C3, B3, K3, 1);
    assert Place(K2, X3, C3, B3, K3, 2) && Place(K2, X3, C3, B3, K3, 3);
  }

  lemma Places3B()
    ensures forall i: nat :: 4 <= i < 8 ==> Place(K2, X3, C3, B3, K3, i)
  {
    hide XorIs;
    Masks3();
    Links3();
    assert Place(K2, X3, C3, B3, K3, 4) && Place(K2, X3, C3, B3, K3, 5);
    assert Place(K2, X3, C3, B3, K3, 6) && Place(K2, X3, C3, B3, K3, 7);
  }

  lemma Places3C()
    ensures forall i: nat :: 8 <= i < 12 ==> Place(K2, X3, C3, B3, K3, i)
  {
    hide XorIs;
    Masks3();
    Links3();
    assert Place(K2, X3, C3, B3, K3, 8) && Place(K2, X3, C3, B3, K3, 9);
    assert Place(K2, X3, C3, B3, K3, 10) && Place(K2, X3, C3, B3, K3, 11);
  }

  lemma Places3D()
    ensures forall i: nat :: 12 <= i < 16 ==> Place(K2, X3, C3, B3, K3, i)
  {
    hide XorIs;
    Masks3();
    Links3();
    assert Place(K2, X3, C3, B3, K3, 12) && Place(K2, X3, C3, B3, K3, 13);
    assert Place(K2, X3, C3, B3, K3, 14) && Place(K2, X3, C3, B3, K3, 15);
  }

  lemma Round3Is()
    ensures Round(InOrder(K2)) == InOrder(K3)
  {
    hide Place;
    Places3A();
    Places3B();
    Places3C();
    Places3D();
    RoundByPlaces(K2, X3, C3, B3, K3);
  }

  const X4: Block := [0x68, 0x9E, 0x01, 0x41, 0x2E, 0x2B, 0x6D, 0x64,
                      0x78, 0x22, 0x85, 0x11, 0x21, 0xA3, 0x83, 0x59]
  const C4: Block := [0x0C, 0xB0, 0x79, 0x60, 0x43, 0x43, 0x2C, 0x65,
                      0x21, 0x81, 0xAE, 0x8F, 0x21, 0x20, 0x06, 0x48]
  const B4: seq<nat> := [0, 1, 1, 0, 0, 1, 0, 1, 1, 0, 1, 1, 1, 0, 1, 1, 0]
  const K4: Block := [0xA4, 0xDC, 0x1B, 0xBC, 0x1A, 0xD5, 0x2B, 0xFB,
                      0xD2, 0x04, 0x5A, 0x13, 0x2C, 0xCC, 0x7A, 0xD4]

  lemma Masks4()
    ensures XorIs(0x0B, 0x2A, 0x21) && XorIs(0x97, 0xD6, 0x41) && XorIs(0xCE, 0xA3, 0x6D) && XorIs(0x52, 0x7C, 0x2E)
    ensures XorIs(0xA0, 0x3E, 0x9E) && XorIs(0xB7, 0xA6, 0x11) && XorIs(0xFC, 0xA5, 0x59) && XorIs(0xCF, 0xB7, 0x78)
    ensures XorIs(0x1E, 0x1F, 0x01) && XorIs(0x4D, 0x29, 0x64) && XorIs(0xC1, 0xA9, 0x68) && XorIs(0x7E, 0x55, 0x2B)
    ensures XorIs(0x58, 0xDD, 0x85) && XorIs(0x44, 0xC7, 0x83) && XorIs(0x36, 0x95, 0xA3) && XorIs(0x7D, 0x5F, 0x22)
  {
  }

  lemma Links4()
    ensures XorIs(0x41, 0x21, 0x60) && XorIs(0x6D, 0x41, 0x2C) && XorIs(0x2E, 0x6D, 0x43) && XorIs(0x9E, 0x2E, 0xB0)
    ensures XorIs(0x11, 0x9E, 0x8F) && XorIs(0x59, 0x11, 0x48) && XorIs(0x78, 0x59, 0x21) && XorIs(0x01, 0x78, 0x79)
    ensures XorIs(0x64, 0x01, 0x65) && XorIs(0x68, 0x64, 0x0C) && XorIs(0x2B, 0x68, 0x43) && XorIs(0x85, 0x2B, 0xAE)
    ensures XorIs(0x83, 0x85, 0x06) && XorIs(0xA3, 0x83, 0x20) && XorIs(0x22, 0xA3, 0x81)
  {
  }

  lemma Places4A()
    ensures forall i: nat :: 0 <= i < 4 ==> Place(K3, X4, C4, B4, K4, i)
  {
    hide XorIs;
    Masks4();
    Links4();
    assert Place(K3, X4, C4, B4, K4, 0) && Place(K3, X4, C4, B4, K4, 1);
    assert Place(K3, X4, C4, B4, K4, 2) && Place(K3, X4, C4, B4, K4, 3);
  }

  lemma Places4B()
    ensures forall i: nat :: 4 <= i < 8 ==> Place(K3, X4, C4, B4, K4, i)
  {
    hide XorIs;
    Masks4();
    Links4();
    assert Place(K3, X4, C4, B4, K4, 4) && Place(K3, X4, C4, B4, K4, 5);
    assert Place(K3, X4, C4, B4, K4, 6) && Place(K3, X4, C4, B4, K4, 7);
  }

  lemma Places4C()
    ensures forall i: nat :: 8 <= i < 12 ==> Place(K3, X4, C4, B4, K4, i)
  {
    hide XorIs;
    Masks4();
    Links4();
    assert Place(K3, X4, C4, B4, K4, 8) && Place(K3, X4, C4, B4, K4, 9);
    assert Place(K3, X4, C4, B4, K4, 10) && Place(K3, X4, C4, B4, K4, 11);
  }

  lemma Places4D()
    ensures forall i: nat :: 12 <= i < 16 ==> Place(K3, X4, C4, B4, K4, i)
  {
    hide XorIs;
    Masks4();
    Links4();
    assert Place(K3, X4, C4, B4, K4, 12) && Place(K3, X4, C4, B4, K4, 13);
    assert Place(K3, X4, C4, B4, K4, 14) && Place(K3, X4, C4, B4, K4, 15);
  }

  lemma Round4Is()
    ensures Round(InOrder(K3)) == InOrder(K4)
  {
    hide Place;
    Places4A();
    Places4B();
    Places4C();
    Places4D();
    RoundByPlaces(K3, X4, C4, B4, K4);
  }

  const X5: Block := [0x0D, 0xE2, 0x04, 0x6A, 0x66, 0x80, 0x88, 0xD2,
                      0x65, 0x5B, 0x87, 0xB5, 0x06, 0x59, 0xBD, 0x71]
  const C5: Block := [0xDF, 0x84, 0x61, 0x6C, 0xEE, 0x8D, 0xE2, 0xD6,
                      0x14, 0x02, 0x07, 0x57, 0x06, 0xE4, 0x3A, 0xC4]
  const B5: seq<nat> := [0, 1, 1, 0, 0, 1, 1, 0, 1, 0, 0, 0, 0, 1, 1, 0, 1]
  const K5: Block := [0x78, 0xB0, 0x03, 0xC8, 0xC5, 0x20, 0xE1, 0x6C,
                      0xC6, 0x86, 0xB4, 0xDB, 0x11, 0x90, 0xAD, 0x4F]

  lemma Masks5()
    ensures XorIs(0x2C, 0x2A, 0x06) && XorIs(0xBC, 0xD6, 0x6A) && XorIs(0x2B, 0xA3, 0x88) && XorIs(0x1A, 0x7C, 0x66)
    ensures XorIs(0xDC, 0x3E, 0xE2) && XorIs(0x13, 0xA6, 0xB5) && XorIs(0xD4, 0xA5, 0x71) && XorIs(0xD2, 0xB7, 0x65)
    ensures XorIs(0x1B, 0x1F, 0x04) && XorIs(0xFB, 0x29, 0xD2) && XorIs(0xA4, 0xA9, 0x0D) && XorIs(0xD5, 0x55, 0x80)
    ensures XorIs(0x5A, 0xDD, 0x87) && XorIs(0x7A, 0xC7, 0xBD) && XorIs(0xCC, 0x95, 0x59) && XorIs(0x04, 0x5F, 0x5B)
  {
  }

  lemma Links5()
    ensures XorIs(0x6A, 0x06, 0x6C) && XorIs(0x88, 0x6A, 0xE2) && XorIs(0x66, 0x88, 0xEE) && XorIs(0xE2, 0x66, 0x84)
    ensures XorIs(0xB5, 0xE2, 0x57) && XorIs(0x71, 0xB5, 0xC4) && XorIs(0x65, 0x71, 0x14) && XorIs(0x04, 0x65, 0x61)
    ensures XorIs(0xD2, 0x04, 0xD6) && XorIs(0x0D, 0xD2, 0xDF) && XorIs(0x80, 0x0D, 0x8D) && XorIs(0x87, 0x80, 0x07)
    ensures XorIs(0xBD, 0x87, 0x3A) && XorIs(0x59, 0xBD, 0xE4) && XorIs(0x5B, 0x59, 0x02)
  {
  }

  lemma Places5A()
    ensures forall i: nat :: 0 <= i < 4 ==> Place(K4, X5, C5, B5, K5, i)
  {
    hide XorIs;
    Masks5();
    Links5();
    assert Place(K4, X5, C5, B5, K5, 0) && Place(K4, X5, C5, B5, K5, 1);
    assert Place(K4, X5, C5, B5, K5, 2) && Place(K4, X5, C5, B5, K5, 3);
  }

  lemma Places5B()
    ensures forall i: nat :: 4 <= i < 8 ==> Place(K4, X5, C5, B5, K5, i)
  {
    hide XorIs;
    Masks5();
    Links5();
    assert Place(K4, X5, C5, B5, K5, 4) && Place(K4, X5, C5, B5, K5, 5);
    assert Place(K4, X5, C5, B5, K5, 6) && Place(K4, X5, C5, B5, K5, 7);
  }

  lemma Places5C()
    ensures forall i: nat :: 8 <= i < 12 ==> Place(K4, X5, C5, B5, K5, i)
  {
    hide XorIs;
    Masks5();
    Links5();
    assert Place(K4, X5, C5, B5, K5, 8) && Place(K4, X5, C5, B5, K5, 9);
    assert Place(K4, X5, C5, B5, K5, 10) && Place(K4, X5, C5, B5, K5, 11);
  }

  lemma Places5D()
    ensures forall i: nat :: 12 <= i < 16 ==> Place(K4, X5, C5, B5, K5, i)
  {
    hide XorIs;
    Masks5();
    Links5();
    assert Place(K4, X5, C5, B5, K5, 12) && Place(K4, X5, C5, B5, K5, 13);
    assert Place(K4, X5, C5, B5, K5, 14) && Place(K4, X5, C5, B5, K5, 15);
  }

  lemma Round5Is()
    ensures Round(InOrder(K4)) == InOrder(K5)
  {
    hide Place;
    Places5A();
    Places5B();
    Places5C();
    Places5D();
    RoundByPlaces(K4, X5, C5, B5, K5);
  }

  /** The klicensee of the zero RAP, were the cipher the identity. */
  lemma KnownKlicensee()
    ensures Klicensee(b => b, K0) == K5
  {
    hide Round, InOrder, FromOrder;
    Round1Is();
    Round2Is();
    Round3Is();
    Round4Is();
    Round5Is();
    FiveRounds(K0);
    OrderRoundTrip(K5);
  }

  lemma FiveRounds(key: Block)
    ensures Klicensee(b => b, key) == FromOrder(Round(Round(Round(Round(Round(InOrder(key)))))))
  {
    hide Round, InOrder, FromOrder;
    var d := InOrder(key);
    assert Rounds(d, 1) == Round(Rounds(d, 0));
    assert Rounds(d, 3) == Round(Round(Rounds(d, 1)));
    assert Rounds(d, 5) == Round(Round(Rounds(d, 3)));
  }
}
