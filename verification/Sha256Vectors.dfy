/** Two digests the standard publishes, computed round by round from the definitions. */
module Sha256Vectors {
  import opened Words
  import opened Sha256
  import opened Sha256Constants

  // ----- one block, four rounds at a time -----

  datatype Task = Task(h: seq<bv32>, block: seq<byte>)

  type Job = j: Task | |j.h| == 8 && |j.block| == BLOCK witness Task(InitialState(), Fill(0, BLOCK))

  /** The working variables after t rounds. */
  ghost predicate At(j: Job, t: nat, a: bv32, b: bv32, c: bv32, d: bv32, e: bv32, f: bv32, g: bv32, h: bv32)
    requires t <= 64
  {
    Rounds(j.h, j.block, t) == Working(a, b, c, d, e, f, g, h)
  }

  /** Eight words of the message schedule, from the t-th. */
  ghost predicate Row(j: Job, t: nat, w0: bv32, w1: bv32, w2: bv32, w3: bv32, w4: bv32, w5: bv32, w6: bv32, w7: bv32)
    requires t <= 56
  {
    && Schedule(j.block, t) == w0 && Schedule(j.block, t + 1) == w1
    && Schedule(j.block, t + 2) == w2 && Schedule(j.block, t + 3) == w3
    && Schedule(j.block, t + 4) == w4 && Schedule(j.block, t + 5) == w5
    && Schedule(j.block, t + 6) == w6 && Schedule(j.block, t + 7) == w7
  }

  predicate Turns(v: Working, k: bv32, w: bv32, a: bv32, e: bv32) {
    Round(v, k, w) == Working(a, v.a, v.b, v.c, e, v.e, v.f, v.g)
  }

  lemma Four(j: Job, t: nat, v: Working,
             a0: bv32, e0: bv32, a1: bv32, e1: bv32, a2: bv32, e2: bv32, a3: bv32, e3: bv32)
    returns (next: Working)
    requires t <= 60 && v == Rounds(j.h, j.block, t)
    requires Turns(v, Constant(t), Schedule(j.block, t), a0, e0)
    requires Turns(Working(a0, v.a, v.b, v.c, e0, v.e, v.f, v.g), Constant(t + 1), Schedule(j.block, t + 1), a1, e1)
    requires Turns(Working(a1, a0, v.a, v.b, e1, e0, v.e, v.f), Constant(t + 2), Schedule(j.block, t + 2), a2, e2)
    requires Turns(Working(a2, a1, a0, v.a, e2, e1, e0, v.e), Constant(t + 3), Schedule(j.block, t + 3), a3, e3)
    ensures next == Rounds(j.h, j.block, t + 4) == Working(a3, a2, a1, a0, e3, e2, e1, e0)
  {
    hide Schedule, Constant, Round;
    next := Rounds(j.h, j.block, t + 4);
    var _ := OneRound(j, t);
    var _ := OneRound(j, t + 1);
    var _ := OneRound(j, t + 2);
    var _ := OneRound(j, t + 3);
  }

  lemma OneRound(j: Job, t: nat) returns (next: Working)
    requires t < 64
    ensures next == Rounds(j.h, j.block, t + 1)
            == Round(Rounds(j.h, j.block, t), Constant(t), Schedule(j.block, t))
  {
    hide Schedule, Constant, Round;
    next := Rounds(j.h, j.block, t + 1);
  }

  lemma Extend(j: Job, t: nat, w0: bv32, w1: bv32, w2: bv32, w3: bv32)
    requires 16 <= t <= 60
    requires NextWord(Schedule(j.block, t - 16), Schedule(j.block, t - 15), Schedule(j.block, t - 7),
                      Schedule(j.block, t - 2)) == w0
    requires NextWord(Schedule(j.block, t - 15), Schedule(j.block, t - 14), Schedule(j.block, t - 6),
                      Schedule(j.block, t - 1)) == w1
    requires NextWord(Schedule(j.block, t - 14), Schedule(j.block, t - 13), Schedule(j.block, t - 5), w0) == w2
    requires NextWord(Schedule(j.block, t - 13), Schedule(j.block, t - 12), Schedule(j.block, t - 4), w1) == w3
    ensures Schedule(j.block, t) == w0 && Schedule(j.block, t + 1) == w1
    ensures Schedule(j.block, t + 2) == w2 && Schedule(j.block, t + 3) == w3
  {
    hide NextWord;
  }

  // ----- the words of a block, and the bytes of a word -----

  lemma SmallWord(x: bv32)
    requires x <= 0xFF
    ensures x as nat <= 0xFF && ByteOf(x) as bv32 == x
  {
    assert x as nat <= 0xFF;
    assert (x as nat) % 0x100 == x as nat;
  }

  lemma FourBytes(x: bv32)
    ensures ((x >> 24) << 24) | (((x >> 16) & 0xFF) << 16) | (((x >> 8) & 0xFF) << 8) | (x & 0xFF) == x
    ensures x >> 24 <= 0xFF && ((x >> 16) & 0xFF) <= 0xFF && ((x >> 8) & 0xFF) <= 0xFF && (x & 0xFF) <= 0xFF
  {
  }

  /** A word stored is loaded again. */
  lemma LoadStore(x: bv32)
    ensures LoadBe32(StoreBe32(x)) == x
  {
    FourBytes(x);
    SmallWord(x >> 24);
    SmallWord((x >> 16) & 0xFF);
    SmallWord((x >> 8) & 0xFF);
    SmallWord(x & 0xFF);
    hide ByteOf;
  }

  lemma Stored(j: Job, t: nat, w: bv32)
    requires t < 16 && j.block[4 * t..4 * t + 4] == StoreBe32(w)
    ensures Schedule(j.block, t) == w
  {
    hide StoreBe32, LoadBe32;
    LoadStore(w);
  }

  // ----- the block of "abc" -----

  lemma Abc0(j: Job)
    requires Row(j, 0, 0x61626380, 0x00000000, 0x00000000, 0x00000000, 0x00000000, 0x00000000, 0x00000000, 0x00000000)
    requires Row(j, 8, 0x00000000, 0x00000000, 0x00000000, 0x00000000, 0x00000000, 0x00000000, 0x00000000, 0x00000018)
    requires At(j, 0, 0x6A09E667, 0xBB67AE85, 0x3C6EF372, 0xA54FF53A, 0x510E527F, 0x9B05688C, 0x1F83D9AB, 0x5BE0CD19)
    ensures Row(j, 16, 0x61626380, 0x000F0000, 0x7DA86405, 0x600003C6, 0x3E9D7B78, 0x0183FC00, 0x12DCBFDB, 0xE2E2C38E)
    ensures At(j, 8, 0x85A07B5F, 0xE5030380, 0x2B4209F5, 0x04409A6A, 0x0C657A79, 0x9B27A401, 0x714260AD, 0x43ADA245)
  {
    hide Schedule, Rounds, Constant;
    Constants0();
    var v := Rounds(j.h, j.block, 0);
    v := Four(j, 0, v, 0x5D6AEBCD, 0xFA2A4622, 0x5A6AD9AD, 0x78CE7989, 0xC8C347A7, 0xF92939EB, 0xD550F666, 0x24E00850);
    v := Four(j, 4, v, 0x04409A6A, 0x43ADA245, 0x2B4209F5, 0x714260AD, 0xE5030380, 0x9B27A401, 0x85A07B5F, 0x0C657A79);
    Extend(j, 16, 0x61626380, 0x000F0000, 0x7DA86405, 0x600003C6);
    Extend(j, 20, 0x3E9D7B78, 0x0183FC00, 0x12DCBFDB, 0xE2E2C38E);
  }

  lemma Abc8(j: Job)
    requires Row(j, 8, 0x00000000, 0x00000000, 0x00000000, 0x00000000, 0x00000000, 0x00000000, 0x00000000, 0x00000018)
    requires Row(j, 16, 0x61626380, 0x000F0000, 0x7DA86405, 0x600003C6, 0x3E9D7B78, 0x0183FC00, 0x12DCBFDB, 0xE2E2C38E)
    requires At(j, 8, 0x85A07B5F, 0xE5030380, 0x2B4209F5, 0x04409A6A, 0x0C657A79, 0x9B27A401, 0x714260AD, 0x43ADA245)
    ensures Row(j, 24, 0xC8215C1A, 0xB73679A2, 0xE5BC3909, 0x32663C5B, 0x9D209D67, 0xEC8726CB, 0x702138A4, 0xD3B7973B)
    ensures At(j, 16, 0xB0FA238E, 0xC0645FDE, 0xD932EB16, 0x87912990, 0x07590DCD, 0x0B92F20C, 0x745A48DE, 0x1E578218)
  {
    hide Schedule, Rounds, Constant;
    Constants8();
    var v := Rounds(j.h, j.block, 8);
    v := Four(j, 8, v, 0x8E04ECB9, 0x32CA2D8C, 0x8C87346B, 0x1CC92596, 0x4798A3F4, 0x436B23E8, 0xF71FC5A9, 0x816FD6E9);
    v := Four(j, 12, v, 0x87912990, 0x1E578218, 0xD932EB16, 0x745A48DE, 0xC0645FDE, 0x0B92F20C, 0xB0FA238E, 0x07590DCD);
    Extend(j, 24, 0xC8215C1A, 0xB73679A2, 0xE5BC3909, 0x32663C5B);
    Extend(j, 28, 0x9D209D67, 0xEC8726CB, 0x702138A4, 0xD3B7973B);
  }

  lemma Abc16(j: Job)
    requires Row(j, 16, 0x61626380, 0x000F0000, 0x7DA86405, 0x600003C6, 0x3E9D7B78, 0x0183FC00, 0x12DCBFDB, 0xE2E2C38E)
    requires Row(j, 24, 0xC8215C1A, 0xB73679A2, 0xE5BC3909, 0x32663C5B, 0x9D209D67, 0xEC8726CB, 0x702138A4, 0xD3B7973B)
    requires At(j, 16, 0xB0FA238E, 0xC0645FDE, 0xD932EB16, 0x87912990, 0x07590DCD, 0x0B92F20C, 0x745A48DE, 0x1E578218)
    ensures Row(j, 32, 0x93F5997F, 0x3B68BA73, 0xAFF4FFC1, 0xF10A5C62, 0x0A8B3996, 0x72AF830A, 0x9409E33E, 0x24641522)
    ensures At(j, 24, 0xC5D53D8D, 0xA7A3623F, 0xC2606D6D, 0x9DC68B63, 0xAA47C347, 0x49F5114A, 0xE1257970, 0x8ADA8930)
  {
    hide Schedule, Rounds, Constant;
    Constants16();
    var v := Rounds(j.h, j.block, 16);
    v := Four(j, 16, v, 0x21DA9A9B, 0x8034229C, 0xC2FBD9D1, 0x846EE454, 0xFE777BBF, 0xCC899961, 0xE1F20C33, 0xB0638179);
    v := Four(j, 20, v, 0x9DC68B63, 0x8ADA8930, 0xC2606D6D, 0xE1257970, 0xA7A3623F, 0x49F5114A, 0xC5D53D8D, 0xAA47C347);
    Extend(j, 32, 0x93F5997F, 0x3B68BA73, 0xAFF4FFC1, 0xF10A5C62);
    Extend(j, 36, 0x0A8B3996, 0x72AF830A, 0x9409E33E, 0x24641522);
  }

  lemma Abc24(j: Job)
    requires Row(j, 24, 0xC8215C1A, 0xB73679A2, 0xE5BC3909, 0x32663C5B, 0x9D209D67, 0xEC8726CB, 0x702138A4, 0xD3B7973B)
    requires Row(j, 32, 0x93F5997F, 0x3B68BA73, 0xAFF4FFC1, 0xF10A5C62, 0x0A8B3996, 0x72AF830A, 0x9409E33E, 0x24641522)
    requires At(j, 24, 0xC5D53D8D, 0xA7A3623F, 0xC2606D6D, 0x9DC68B63, 0xAA47C347, 0x49F5114A, 0xE1257970, 0x8ADA8930)
    ensures Row(j, 40, 0x9F47BF94, 0xF0A64F5A, 0x3E246A79, 0x27333BA3, 0x0C4763F2, 0x840ABF27, 0x7A290D5D, 0x065C43DA)
    ensures At(j, 32, 0x73B33BF5, 0xEA992A22, 0xA0060B30, 0x363482C9, 0xBA591112, 0x0109AB3A, 0xADE79437, 0x6112A3B7)
  {
    hide Schedule, Rounds, Constant;
    Constants24();
    var v := Rounds(j.h, j.block, 24);
    v := Four(j, 24, v, 0x1C2C2838, 0x2823EF91, 0xCDE8037D, 0x14383D8E, 0xB62EC4BC, 0xC74C6516, 0x77D37528, 0xEDFFBFF8);
    v := Four(j, 28, v, 0x363482C9, 0x6112A3B7, 0xA0060B30, 0xADE79437, 0xEA992A22, 0x0109AB3A, 0x73B33BF5, 0xBA591112);
    Extend(j, 40, 0x9F47BF94, 0xF0A64F5A, 0x3E246A79, 0x27333BA3);
    Extend(j, 44, 0x0C4763F2, 0x840ABF27, 0x7A290D5D, 0x065C43DA);
  }

  lemma Abc32(j: Job)
    requires Row(j, 32, 0x93F5997F, 0x3B68BA73, 0xAFF4FFC1, 0xF10A5C62, 0x0A8B3996, 0x72AF830A, 0x9409E33E, 0x24641522)
    requires Row(j, 40, 0x9F47BF94, 0xF0A64F5A, 0x3E246A79, 0x27333BA3, 0x0C4763F2, 0x840ABF27, 0x7A290D5D, 0x065C43DA)
    requires At(j, 32, 0x73B33BF5, 0xEA992A22, 0xA0060B30, 0x363482C9, 0xBA591112, 0x0109AB3A, 0xADE79437, 0x6112A3B7)
    ensures Row(j, 48, 0xFB3E89CB, 0xCC7617DB, 0xB9E66C34, 0xA9993667, 0x84BADEDD, 0xC21462BC, 0x1487472C, 0xB20F7A99)
    ensures At(j, 40, 0x79EA687A, 0x6DC57A8A, 0x34DF1604, 0x41A65CB1, 0x1EFBC0A0, 0xF0781BC8, 0xA507A53D, 0x0772A26B)
  {
    hide Schedule, Rounds, Constant;
    Constants32();
    var v := Rounds(j.h, j.block, 32);
    v := Four(j, 32, v, 0x98E12507, 0x9CD9F5F6, 0xFE604DF5, 0x59249DD3, 0xA9A7738C, 0x085F3833, 0x65A0CFE4, 0xF4B002D6);
    v := Four(j, 36, v, 0x41A65CB1, 0x0772A26B, 0x34DF1604, 0xA507A53D, 0x6DC57A8A, 0xF0781BC8, 0x79EA687A, 0x1EFBC0A0);
    Extend(j, 48, 0xFB3E89CB, 0xCC7617DB, 0xB9E66C34, 0xA9993667);
    Extend(j, 52, 0x84BADEDD, 0xC21462BC, 0x1487472C, 0xB20F7A99);
  }

  lemma Abc40(j: Job)
    requires Row(j, 40, 0x9F47BF94, 0xF0A64F5A, 0x3E246A79, 0x27333BA3, 0x0C4763F2, 0x840ABF27, 0x7A290D5D, 0x065C43DA)
    requires Row(j, 48, 0xFB3E89CB, 0xCC7617DB, 0xB9E66C34, 0xA9993667, 0x84BADEDD, 0xC21462BC, 0x1487472C, 0xB20F7A99)
    requires At(j, 40, 0x79EA687A, 0x6DC57A8A, 0x34DF1604, 0x41A65CB1, 0x1EFBC0A0, 0xF0781BC8, 0xA507A53D, 0x0772A26B)
    ensures Row(j, 56, 0xEF57B9CD, 0xEBE6B238, 0x9FE3095E, 0x78BC8D4B, 0xA43FCF15, 0x668B2FF8, 0xEEABA2CC, 0x12B1EDEB)
    ensures At(j, 48, 0x4172328D, 0xA14C14B0, 0x72AB4B91, 0x26628815, 0xFECF0BC6, 0xD57B94A9, 0xB7755DA1, 0xA80F11F0)
  {
    hide Schedule, Rounds, Constant;
    Constants40();
    var v := Rounds(j.h, j.block, 40);
    v := Four(j, 40, v, 0xD6670766, 0x26352D63, 0xDF46652F, 0x838B2711, 0x17AA0DFE, 0xDECD4715, 0x9D4BAF93, 0xFDA24C2E);
    v := Four(j, 44, v, 0x26628815, 0xA80F11F0, 0x72AB4B91, 0xB7755DA1, 0xA14C14B0, 0xD57B94A9, 0x4172328D, 0xFECF0BC6);
    Extend(j, 56, 0xEF57B9CD, 0xEBE6B238, 0x9FE3095E, 0x78BC8D4B);
    Extend(j, 60, 0xA43FCF15, 0x668B2FF8, 0xEEABA2CC, 0x12B1EDEB);
  }

  lemma Abc48(j: Job)
    requires Row(j, 48, 0xFB3E89CB, 0xCC7617DB, 0xB9E66C34, 0xA9993667, 0x84BADEDD, 0xC21462BC, 0x1487472C, 0xB20F7A99)
    requires At(j, 48, 0x4172328D, 0xA14C14B0, 0x72AB4B91, 0x26628815, 0xFECF0BC6, 0xD57B94A9, 0xB7755DA1, 0xA80F11F0)
    ensures At(j, 56, 0x38CC9913, 0x3EC45CDB, 0xF5702FDB, 0x101FD28F, 0x54CB266B, 0xE50E1B4F, 0x9F4787C3, 0x529E7D00)
  {
    hide Schedule, Rounds, Constant;
    Constants48();
    var v := Rounds(j.h, j.block, 48);
    v := Four(j, 48, v, 0x05757CEB, 0xBD714038, 0xF11BFAA8, 0x6E5C390C, 0x7A0508A1, 0x52F1CCF7, 0x886E7A22, 0x49231C1E);
    v := Four(j, 52, v, 0x101FD28F, 0x529E7D00, 0xF5702FDB, 0x9F4787C3, 0x3EC45CDB, 0xE50E1B4F, 0x38CC9913, 0x54CB266B);
  }

  lemma Abc56(j: Job)
    requires Row(j, 56, 0xEF57B9CD, 0xEBE6B238, 0x9FE3095E, 0x78BC8D4B, 0xA43FCF15, 0x668B2FF8, 0xEEABA2CC, 0x12B1EDEB)
    requires At(j, 56, 0x38CC9913, 0x3EC45CDB, 0xF5702FDB, 0x101FD28F, 0x54CB266B, 0xE50E1B4F, 0x9F4787C3, 0x529E7D00)
    ensures At(j, 64, 0x506E3058, 0xD39A2165, 0x04D24D6C, 0xB85E2CE9, 0x5EF50F24, 0xFB121210, 0x948D25B6, 0x961F4894)
  {
    hide Schedule, Rounds, Constant;
    Constants56();
    var v := Rounds(j.h, j.block, 56);
    v := Four(j, 56, v, 0xFCD1887B, 0x9B5E906C, 0xC062D46F, 0x7E44008E, 0xFFB70472, 0x6D83BFC6, 0xB6AE8FFF, 0xB21BAD3D);
    v := Four(j, 60, v, 0xB85E2CE9, 0x961F4894, 0x04D24D6C, 0x948D25B6, 0xD39A2165, 0xFB121210, 0x506E3058, 0x5EF50F24);
  }

  lemma AbcCompressed(j: Job)
    requires j.h == [0x6A09E667, 0xBB67AE85, 0x3C6EF372, 0xA54FF53A, 0x510E527F, 0x9B05688C, 0x1F83D9AB, 0x5BE0CD19]
    requires Row(j, 0, 0x61626380, 0x00000000, 0x00000000, 0x00000000, 0x00000000, 0x00000000, 0x00000000, 0x00000000)
    requires Row(j, 8, 0x00000000, 0x00000000, 0x00000000, 0x00000000, 0x00000000, 0x00000000, 0x00000000, 0x00000018)
    ensures Compress(j.h, j.block)
            == [0xBA7816BF, 0x8F01CFEA, 0x414140DE, 0x5DAE2223, 0xB00361A3, 0x96177A9C, 0xB410FF61, 0xF20015AD]
  {
    assert Rounds(j.h, j.block, 0) == Start(j.h);
    hide Rounds, Schedule, Row;
    Abc0(j);
    Abc8(j);
    Abc16(j);
    Abc24(j);
    Abc32(j);
    Abc40(j);
    Abc48(j);
    Abc56(j);
  }

  // ----- the first block of the 56-byte message -----

  lemma Long0(j: Job)
    requires Row(j, 0, 0x61626364, 0x62636465, 0x63646566, 0x64656667, 0x65666768, 0x66676869, 0x6768696A, 0x68696A6B)
    requires Row(j, 8, 0x696A6B6C, 0x6A6B6C6D, 0x6B6C6D6E, 0x6C6D6E6F, 0x6D6E6F70, 0x6E6F7071, 0x80000000, 0x00000000)
    requires At(j, 0, 0x6A09E667, 0xBB67AE85, 0x3C6EF372, 0xA54FF53A, 0x510E527F, 0x9B05688C, 0x1F83D9AB, 0x5BE0CD19)
    ensures Row(j, 16, 0xEB8012AD, 0xA7C3AE92, 0x76E93BA2, 0xBA42E743, 0x92A92204, 0xD847E75E, 0x9E160036, 0xB280A7CB)
    ensures At(j, 8, 0xD237E6DB, 0x485835B7, 0x55C8EF48, 0xF921C212, 0xA401D211, 0x39A5B2CA, 0x7FF91C94, 0x05C4F88A)
  {
    hide Schedule, Rounds, Constant;
    Constants0();
    var v := Rounds(j.h, j.block, 0);
    v := Four(j, 0, v, 0x5D6AEBB1, 0xFA2A4606, 0x2F2D5FCF, 0x4EB1CFCE, 0x97651825, 0x62D5C49E, 0x4A8D64D5, 0x6494841B);
    v := Four(j, 4, v, 0xF921C212, 0x05C4F88A, 0x55C8EF48, 0x7FF91C94, 0x485835B7, 0x39A5B2CA, 0xD237E6DB, 0xA401D211);
    Extend(j, 16, 0xEB8012AD, 0xA7C3AE92, 0x76E93BA2, 0xBA42E743);
    Extend(j, 20, 0x92A92204, 0xD847E75E, 0x9E160036, 0xB280A7CB);
  }

  lemma Long8(j: Job)
    requires Row(j, 8, 0x696A6B6C, 0x6A6B6C6D, 0x6B6C6D6E, 0x6C6D6E6F, 0x6D6E6F70, 0x6E6F7071, 0x80000000, 0x00000000)
    requires Row(j, 16, 0xEB8012AD, 0xA7C3AE92, 0x76E93BA2, 0xBA42E743, 0x92A92204, 0xD847E75E, 0x9E160036, 0xB280A7CB)
    requires At(j, 8, 0xD237E6DB, 0x485835B7, 0x55C8EF48, 0xF921C212, 0xA401D211, 0x39A5B2CA, 0x7FF91C94, 0x05C4F88A)
    ensures Row(j, 24, 0xDDEB1516, 0xF36586F4, 0x969CD048, 0xE959D99D, 0x6ACCC0EC, 0xF54CB098, 0x2AF1B2DA, 0xEE59C4C9)
    ensures At(j, 16, 0xC3486194, 0xDD16CBB3, 0xD68E6457, 0x101A4861, 0x1496A54F, 0x9162ADED, 0x9243F8AF, 0x839A0FC9)
  {
    hide Schedule, Rounds, Constant;
    Constants8();
    var v := Rounds(j.h, j.block, 8);
    v := Four(j, 8, v, 0x359F2BCE, 0xC09FFEC4, 0x3A474B2B, 0x9037B3B8, 0xB8E2B4CB, 0x443ED29E, 0x1762215C, 0xEE1C97A8);
    v := Four(j, 12, v, 0x101A4861, 0x839A0FC9, 0xD68E6457, 0x9243F8AF, 0xDD16CBB3, 0x9162ADED, 0xC3486194, 0x1496A54F);
    Extend(j, 24, 0xDDEB1516, 0xF36586F4, 0x969CD048, 0xE959D99D);
    Extend(j, 28, 0x6ACCC0EC, 0xF54CB098, 0x2AF1B2DA, 0xEE59C4C9);
  }

  lemma Long16(j: Job)
    requires Row(j, 16, 0xEB8012AD, 0xA7C3AE92, 0x76E93BA2, 0xBA42E743, 0x92A92204, 0xD847E75E, 0x9E160036, 0xB280A7CB)
    requires Row(j, 24, 0xDDEB1516, 0xF36586F4, 0x969CD048, 0xE959D99D, 0x6ACCC0EC, 0xF54CB098, 0x2AF1B2DA, 0xEE59C4C9)
    requires At(j, 16, 0xC3486194, 0xDD16CBB3, 0xD68E6457, 0x101A4861, 0x1496A54F, 0x9162ADED, 0x9243F8AF, 0x839A0FC9)
    ensures Row(j, 32, 0xA835E16A, 0x1DFF4429, 0xD6E15959, 0xC397CD6E, 0x6F1801CA, 0x21574205, 0x35FF7A84, 0x9743EE78)
    ensures At(j, 24, 0x59FCE6B9, 0xAE2E2D4F, 0x1B2B66B8, 0xD70AC17D, 0xA2C7D51D, 0xF074FC95, 0xD560B028, 0x7CC6B262)
  {
    hide Schedule, Rounds, Constant;
    Constants16();
    var v := Rounds(j.h, j.block, 16);
    v := Four(j, 16, v, 0xB9DCACB1, 0xD4F64250, 0x046A193E, 0x885370B6, 0xF402F058, 0x6F433549, 0x2139187B, 0x7C304206);
    v := Four(j, 20, v, 0xD70AC17D, 0x7CC6B262, 0x1B2B66B8, 0xD560B028, 0xAE2E2D4F, 0xF074FC95, 0x59FCE6B9, 0xA2C7D51D);
    Extend(j, 32, 0xA835E16A, 0x1DFF4429, 0xD6E15959, 0xC397CD6E);
    Extend(j, 36, 0x6F1801CA, 0x21574205, 0x35FF7A84, 0x9743EE78);
  }

  lemma Long24(j: Job)
    requires Row(j, 24, 0xDDEB1516, 0xF36586F4, 0x969CD048, 0xE959D99D, 0x6ACCC0EC, 0xF54CB098, 0x2AF1B2DA, 0xEE59C4C9)
    requires Row(j, 32, 0xA835E16A, 0x1DFF4429, 0xD6E15959, 0xC397CD6E, 0x6F1801CA, 0x21574205, 0x35FF7A84, 0x9743EE78)
    requires At(j, 24, 0x59FCE6B9, 0xAE2E2D4F, 0x1B2B66B8, 0xD70AC17D, 0xA2C7D51D, 0xF074FC95, 0xD560B028, 0x7CC6B262)
    ensures Row(j, 40, 0xE44183E7, 0x0D09F00D, 0x9C89AF54, 0x042D5BEF, 0x71F134D0, 0x0F94F463, 0x7E49DC63, 0x6F65C997)
    ensures At(j, 32, 0x5581AB07, 0xEB43F3ED, 0xDF7151A0, 0x74BCF468, 0xDF980085, 0x0635D880, 0x7629C961, 0x72ABAECD)
  {
    hide Schedule, Rounds, Constant;
    Constants24();
    var v := Rounds(j.h, j.block, 24);
    v := Four(j, 24, v, 0x4A885065, 0x763597FB, 0x573221DA, 0x36E74EB4, 0x128661DA, 0x1162D575, 0x73F858AF, 0xE77C797F);
    v := Four(j, 28, v, 0x74BCF468, 0x72ABAECD, 0xDF7151A0, 0x7629C961, 0xEB43F3ED, 0x0635D880, 0x5581AB07, 0xDF980085);
    Extend(j, 40, 0xE44183E7, 0x0D09F00D, 0x9C89AF54, 0x042D5BEF);
    Extend(j, 44, 0x71F134D0, 0x0F94F463, 0x7E49DC63, 0x6F65C997);
  }

  lemma Long32(j: Job)
    requires Row(j, 32, 0xA835E16A, 0x1DFF4429, 0xD6E15959, 0xC397CD6E, 0x6F1801CA, 0x21574205, 0x35FF7A84, 0x9743EE78)
    requires Row(j, 40, 0xE44183E7, 0x0D09F00D, 0x9C89AF54, 0x042D5BEF, 0x71F134D0, 0x0F94F463, 0x7E49DC63, 0x6F65C997)
    requires At(j, 32, 0x5581AB07, 0xEB43F3ED, 0xDF7151A0, 0x74BCF468, 0xDF980085, 0x0635D880, 0x7629C961, 0x72ABAECD)
    ensures Row(j, 48, 0x0B706583, 0x179312CA, 0x503054E9, 0xBA125C39, 0x7E9392C9, 0xD5CBAA1E, 0x78E0585D, 0xF6E7611C)
    ensures At(j, 40, 0x7E4D30B8, 0x91AC9D5D, 0xA985B4BE, 0x2C55D3A6, 0x9F5B9B6D, 0x68D8D590, 0xF72BF353, 0xB067C1AF)
  {
    hide Schedule, Rounds, Constant;
    Constants32();
    var v := Rounds(j.h, j.block, 32);
    v := Four(j, 32, v, 0x9FC905C8, 0xA94D2AF1, 0x9CE5A62F, 0x6EF3B6BD, 0x1DF8E885, 0x2A9E048E, 0x0786DCE8, 0xDE2A21D1);
    v := Four(j, 36, v, 0x2C55D3A6, 0xB067C1AF, 0xA985B4BE, 0xF72BF353, 0x91AC9D5D, 0x68D8D590, 0x7E4D30B8, 0x9F5B9B6D);
    Extend(j, 48, 0x0B706583, 0x179312CA, 0x503054E9, 0xBA125C39);
    Extend(j, 52, 0x7E9392C9, 0xD5CBAA1E, 0x78E0585D, 0xF6E7611C);
  }

  lemma Long40(j: Job)
    requires Row(j, 40, 0xE44183E7, 0x0D09F00D, 0x9C89AF54, 0x042D5BEF, 0x71F134D0, 0x0F94F463, 0x7E49DC63, 0x6F65C997)
    requires Row(j, 48, 0x0B706583, 0x179312CA, 0x503054E9, 0xBA125C39, 0x7E9392C9, 0xD5CBAA1E, 0x78E0585D, 0xF6E7611C)
    requires At(j, 40, 0x7E4D30B8, 0x91AC9D5D, 0xA985B4BE, 0x2C55D3A6, 0x9F5B9B6D, 0x68D8D590, 0xF72BF353, 0xB067C1AF)
    ensures Row(j, 56, 0x8AC830CE, 0x8B47A303, 0xFD6E627F, 0x8C6E2C6A, 0x4001ADF1, 0x1A3DD097, 0xA9DF6F62, 0x6AA60A39)
    ensures At(j, 48, 0x13D82741, 0x165BE9CD, 0x18F0D19D, 0xDE71E2F2, 0xA7802A4D, 0xA483F080, 0x6B88472C, 0xFF61C636)
  {
    hide Schedule, Rounds, Constant;
    Constants40();
    var v := Rounds(j.h, j.block, 40);
    v := Four(j, 40, v, 0x7E056794, 0x423B26C0, 0x508A16AB, 0x45459D97, 0xB62C7013, 0x80A92A00, 0x167361DE, 0x41DD3844);
    v := Four(j, 44, v, 0xDE71E2F2, 0xFF61C636, 0x18F0D19D, 0x6B88472C, 0x165BE9CD, 0xA483F080, 0x13D82741, 0xA7802A4D);
    Extend(j, 56, 0x8AC830CE, 0x8B47A303, 0xFD6E627F, 0x8C6E2C6A);
    Extend(j, 60, 0x4001ADF1, 0x1A3DD097, 0xA9DF6F62, 0x6AA60A39);
  }

  lemma Long48(j: Job)
    requires Row(j, 48, 0x0B706583, 0x179312CA, 0x503054E9, 0xBA125C39, 0x7E9392C9, 0xD5CBAA1E, 0x78E0585D, 0xF6E7611C)
    requires At(j, 48, 0x13D82741, 0x165BE9CD, 0x18F0D19D, 0xDE71E2F2, 0xA7802A4D, 0xA483F080, 0x6B88472C, 0xFF61C636)
    ensures At(j, 56, 0x9E57C4A0, 0xF907B313, 0x1D6DE87A, 0xB8D55619, 0xEEC13548, 0x61A41711, 0x3443BED4, 0x1C806A61)
  {
    hide Schedule, Rounds, Constant;
    Constants48();
    var v := Rounds(j.h, j.block, 48);
    v := Four(j, 48, v, 0x017B9D99, 0xAEB10B60, 0x543C99A1, 0x16F134B6, 0x758CA97A, 0x100CF2EA, 0x81C1CDE0, 0x5C47EB7B);
    v := Four(j, 52, v, 0xB8D55619, 0x1C806A61, 0x1D6DE87A, 0x3443BED4, 0xF907B313, 0x61A41711, 0x9E57C4A0, 0xEEC13548);
  }

  lemma Long56(j: Job)
    requires Row(j, 56, 0x8AC830CE, 0x8B47A303, 0xFD6E627F, 0x8C6E2C6A, 0x4001ADF1, 0x1A3DD097, 0xA9DF6F62, 0x6AA60A39)
    requires At(j, 56, 0x9E57C4A0, 0xF907B313, 0x1D6DE87A, 0xB8D55619, 0xEEC13548, 0x61A41711, 0x3443BED4, 0x1C806A61)
    ensures At(j, 64, 0x1BDC6F6F, 0x86126910, 0xF6F443F8, 0xBCFCE922, 0x25D2430A, 0x2FC08F85, 0xACC75916, 0x962D8621)
  {
    hide Schedule, Rounds, Constant;
    Constants56();
    var v := Rounds(j.h, j.block, 56);
    v := Four(j, 56, v, 0x71629856, 0x2F6C8C4E, 0x7C015A2C, 0xCB9D3DD0, 0x921FCCB6, 0x43D8A034, 0xE18F259A, 0x51E15869);
    v := Four(j, 60, v, 0xBCFCE922, 0x962D8621, 0xF6F443F8, 0xACC75916, 0x86126910, 0x2FC08F85, 0x1BDC6F6F, 0x25D2430A);
  }

  lemma LongCompressed(j: Job)
    requires j.h == [0x6A09E667, 0xBB67AE85, 0x3C6EF372, 0xA54FF53A, 0x510E527F, 0x9B05688C, 0x1F83D9AB, 0x5BE0CD19]
    requires Row(j, 0, 0x61626364, 0x62636465, 0x63646566, 0x64656667, 0x65666768, 0x66676869, 0x6768696A, 0x68696A6B)
    requires Row(j, 8, 0x696A6B6C, 0x6A6B6C6D, 0x6B6C6D6E, 0x6C6D6E6F, 0x6D6E6F70, 0x6E6F7071, 0x80000000, 0x00000000)
    ensures Compress(j.h, j.block)
            == [0x85E655D6, 0x417A1795, 0x3363376A, 0x624CDE5C, 0x76E09589, 0xCAC5F811, 0xCC4B32C1, 0xF20E533A]
  {
    assert Rounds(j.h, j.block, 0) == Start(j.h);
    hide Rounds, Schedule, Row;
    Long0(j);
    Long8(j);
    Long16(j);
    Long24(j);
    Long32(j);
    Long40(j);
    Long48(j);
    Long56(j);
  }

  // ----- its second block -----

  lemma Last0(j: Job)
    requires Row(j, 0, 0x00000000, 0x00000000, 0x00000000, 0x00000000, 0x00000000, 0x00000000, 0x00000000, 0x00000000)
    requires Row(j, 8, 0x00000000, 0x00000000, 0x00000000, 0x00000000, 0x00000000, 0x00000000, 0x00000000, 0x000001C0)
    requires At(j, 0, 0x85E655D6, 0x417A1795, 0x3363376A, 0x624CDE5C, 0x76E09589, 0xCAC5F811, 0xCC4B32C1, 0xF20E533A)
    ensures Row(j, 16, 0x00000000, 0x00D80000, 0x00000000, 0x00003677, 0x00000000, 0x1DF5600D, 0x000001C0, 0x1C00501C)
    ensures At(j, 8, 0xBF9A93A0, 0x89BBA3F1, 0x3EEB6C06, 0x185A5D79, 0x059ABDD1, 0x0A34DF03, 0xFE20CDA6, 0x8DFF3001)
  {
    hide Schedule, Rounds, Constant;
    Constants0();
    var v := Rounds(j.h, j.block, 0);
    v := Four(j, 0, v, 0x7C20C838, 0x4670AE6E, 0x7C3C0F86, 0x8C51BE64, 0xFD1EEBDC, 0xAF71B9EA, 0xF268FAA9, 0xE20362EF);
    v := Four(j, 4, v, 0x185A5D79, 0x8DFF3001, 0x3EEB6C06, 0xFE20CDA6, 0x89BBA3F1, 0x0A34DF03, 0xBF9A93A0, 0x059ABDD1);
    Extend(j, 16, 0x00000000, 0x00D80000, 0x00000000, 0x00003677);
    Extend(j, 20, 0x00000000, 0x1DF5600D, 0x000001C0, 0x1C00501C);
  }

  lemma Last8(j: Job)
    requires Row(j, 8, 0x00000000, 0x00000000, 0x00000000, 0x00000000, 0x00000000, 0x00000000, 0x00000000, 0x000001C0)
    requires Row(j, 16, 0x00000000, 0x00D80000, 0x00000000, 0x00003677, 0x00000000, 0x1DF5600D, 0x000001C0, 0x1C00501C)
    requires At(j, 8, 0xBF9A93A0, 0x89BBA3F1, 0x3EEB6C06, 0x185A5D79, 0x059ABDD1, 0x0A34DF03, 0xFE20CDA6, 0x8DFF3001)
    ensures Row(j, 24, 0x01B00000, 0x220A8D94, 0x0000A365, 0x177017E7, 0x63D38035, 0x090AB713, 0x4C7539CA, 0x0F19A8C9)
    ensures At(j, 16, 0x16A8CC79, 0x0CEA5CBC, 0xD74080FA, 0x35EE996D, 0x0FCB1F6F, 0x60356548, 0x68AA893F, 0x5C24E2A2)
  {
    hide Schedule, Rounds, Constant;
    Constants8();
    var v := Rounds(j.h, j.block, 8);
    v := Four(j, 8, v, 0x2C096744, 0xABFA465B, 0x2D964E86, 0xAA27ED82, 0x5B35025B, 0x10E77723, 0x5EB4EC40, 0xE11B4548);
    v := Four(j, 12, v, 0x35EE996D, 0x5C24E2A2, 0xD74080FA, 0x68AA893F, 0x0CEA5CBC, 0x60356548, 0x16A8CC79, 0x0FCB1F6F);
    Extend(j, 24, 0x01B00000, 0x220A8D94, 0x0000A365, 0x177017E7);
    Extend(j, 28, 0x63D38035, 0x090AB713, 0x4C7539CA, 0x0F19A8C9);
  }

  lemma Last16(j: Job)
    requires Row(j, 16, 0x00000000, 0x00D80000, 0x00000000, 0x00003677, 0x00000000, 0x1DF5600D, 0x000001C0, 0x1C00501C)
    requires Row(j, 24, 0x01B00000, 0x220A8D94, 0x0000A365, 0x177017E7, 0x63D38035, 0x090AB713, 0x4C7539CA, 0x0F19A8C9)
    requires At(j, 16, 0x16A8CC79, 0x0CEA5CBC, 0xD74080FA, 0x35EE996D, 0x0FCB1F6F, 0x60356548, 0x68AA893F, 0x5C24E2A2)
    ensures Row(j, 32, 0x5DF4B0C4, 0xE257036A, 0xC97BB6F1, 0xC5B46F4D, 0xF8253C4E, 0xA558D189, 0x78696285, 0xED07117F)
    ensures At(j, 24, 0xA4195B91, 0xF13AE55B, 0xD44DC81A, 0x20AAD899, 0xEDDBD6ED, 0x966AA287, 0x5BACE62D, 0xCC4769F2)
  {
    hide Schedule, Rounds, Constant;
    Constants16();
    var v := Rounds(j.h, j.block, 16);
    v := Four(j, 16, v, 0xF16F634E, 0x8B21CDC1, 0x23DCB6C2, 0xCA9182D3, 0xDCFF40FD, 0x69BF7B95, 0x76F1A2BC, 0x0DC84BB1);
    v := Four(j, 20, v, 0x20AAD899, 0xCC4769F2, 0xD44DC81A, 0x5BACE62D, 0xF13AE55B, 0x966AA287, 0xA4195B91, 0xEDDBD6ED);
    Extend(j, 32, 0x5DF4B0C4, 0xE257036A, 0xC97BB6F1, 0xC5B46F4D);
    Extend(j, 36, 0xF8253C4E, 0xA558D189, 0x78696285, 0xED07117F);
  }

  lemma Last24(j: Job)
    requires Row(j, 24, 0x01B00000, 0x220A8D94, 0x0000A365, 0x177017E7, 0x63D38035, 0x090AB713, 0x4C7539CA, 0x0F19A8C9)
    requires Row(j, 32, 0x5DF4B0C4, 0xE257036A, 0xC97BB6F1, 0xC5B46F4D, 0xF8253C4E, 0xA558D189, 0x78696285, 0xED07117F)
    requires At(j, 24, 0xA4195B91, 0xF13AE55B, 0xD44DC81A, 0x20AAD899, 0xEDDBD6ED, 0x966AA287, 0x5BACE62D, 0xCC4769F2)
    ensures Row(j, 40, 0x107358F6, 0x390AE496, 0x565010A2, 0xC51D7D44, 0x9E74C972, 0x6614B561, 0x30FC129D, 0x9AC684A8)
    ensures At(j, 32, 0xB0EAB1C5, 0x02EF3A5F, 0x1CFA5EB0, 0xD958B529, 0xF6D93952, 0x5DA10665, 0x6C49DB9F, 0xC2FA99B1)
  {
    hide Schedule, Rounds, Constant;
    Constants24();
    var v := Rounds(j.h, j.block, 24);
    v := Four(j, 24, v, 0x4984FA79, 0xA530D939, 0xAA6CB982, 0x0B5EEEA4, 0x9450FBBC, 0x09166DDA, 0x0D936BAB, 0x6E495D4B);
    v := Four(j, 28, v, 0xD958B529, 0xC2FA99B1, 0x1CFA5EB0, 0x6C49DB9F, 0x02EF3A5F, 0x5DA10665, 0xB0EAB1C5, 0xF6D93952);
    Extend(j, 40, 0x107358F6, 0x390AE496, 0x565010A2, 0xC51D7D44);
    Extend(j, 44, 0x9E74C972, 0x6614B561, 0x30FC129D, 0x9AC684A8);
  }

  lemma Last32(j: Job)
    requires Row(j, 32, 0x5DF4B0C4, 0xE257036A, 0xC97BB6F1, 0xC5B46F4D, 0xF8253C4E, 0xA558D189, 0x78696285, 0xED07117F)
    requires Row(j, 40, 0x107358F6, 0x390AE496, 0x565010A2, 0xC51D7D44, 0x9E74C972, 0x6614B561, 0x30FC129D, 0x9AC684A8)
    requires At(j, 32, 0xB0EAB1C5, 0x02EF3A5F, 0x1CFA5EB0, 0xD958B529, 0xF6D93952, 0x5DA10665, 0x6C49DB9F, 0xC2FA99B1)
    ensures Row(j, 48, 0x2B658DBD, 0xE290F793, 0x9EEBB24C, 0x9713B5DE, 0x41061AB7, 0xE022E23B, 0x0772079E, 0x7DE22D9C)
    ensures At(j, 40, 0x221B8A5A, 0xADCA7A96, 0xD949682B, 0x2F11C939, 0x0B82C5EB, 0xC6CCE4FF, 0x32D99008, 0xFED4CE1D)
  {
    hide Schedule, Rounds, Constant;
    Constants32();
    var v := Rounds(j.h, j.block, 32);
    v := Four(j, 32, v, 0x0BFBA73C, 0x8B99E3A9, 0x4BD1DF96, 0x905E44AC, 0x9907F1B6, 0x66C3043D, 0xECDE4E0D, 0x5DC119E6);
    v := Four(j, 36, v, 0x2F11C939, 0xFED4CE1D, 0xD949682B, 0x32D99008, 0xADCA7A96, 0xC6CCE4FF, 0x221B8A5A, 0x0B82C5EB);
    Extend(j, 48, 0x2B658DBD, 0xE290F793, 0x9EEBB24C, 0x9713B5DE);
    Extend(j, 52, 0x41061AB7, 0xE022E23B, 0x0772079E, 0x7DE22D9C);
  }

  lemma Last40(j: Job)
    requires Row(j, 40, 0x107358F6, 0x390AE496, 0x565010A2, 0xC51D7D44, 0x9E74C972, 0x6614B561, 0x30FC129D, 0x9AC684A8)
    requires Row(j, 48, 0x2B658DBD, 0xE290F793, 0x9EEBB24C, 0x9713B5DE, 0x41061AB7, 0xE022E23B, 0x0772079E, 0x7DE22D9C)
    requires At(j, 40, 0x221B8A5A, 0xADCA7A96, 0xD949682B, 0x2F11C939, 0x0B82C5EB, 0xC6CCE4FF, 0x32D99008, 0xFED4CE1D)
    ensures Row(j, 56, 0xC8B83778, 0x75A79849, 0xD93DBDDB, 0x0A036C9D, 0xCB4F6AC6, 0x823F97E2, 0xEA2F2A7A, 0xB9018B52)
    ensures At(j, 48, 0xD7354D5B, 0x0B3303A7, 0x104A7DB4, 0x0F154E11, 0xAAD55B6B, 0xBBE1C39A, 0x5348E8F6, 0x6F9517CB)
  {
    hide Schedule, Rounds, Constant;
    Constants40();
    var v := Rounds(j.h, j.block, 40);
    v := Four(j, 40, v, 0x12D97845, 0xE4213CA2, 0x2C794876, 0xFF6759BA, 0x8300FCA2, 0xE0E3457C, 0xF2AD6322, 0xCC48C7F3);
    v := Four(j, 44, v, 0x0F154E11, 0x6F9517CB, 0x104A7DB4, 0x5348E8F6, 0x0B3303A7, 0xBBE1C39A, 0xD7354D5B, 0xAAD55B6B);
    Extend(j, 56, 0xC8B83778, 0x75A79849, 0xD93DBDDB, 0x0A036C9D);
    Extend(j, 60, 0xCB4F6AC6, 0x823F97E2, 0xEA2F2A7A, 0xB9018B52);
  }

  lemma Last48(j: Job)
    requires Row(j, 48, 0x2B658DBD, 0xE290F793, 0x9EEBB24C, 0x9713B5DE, 0x41061AB7, 0xE022E23B, 0x0772079E, 0x7DE22D9C)
    requires At(j, 48, 0xD7354D5B, 0x0B3303A7, 0x104A7DB4, 0x0F154E11, 0xAAD55B6B, 0xBBE1C39A, 0x5348E8F6, 0x6F9517CB)
    ensures At(j, 56, 0x92952710, 0xD9F0C115, 0xEC02560A, 0x4ECA6FA0, 0x226806D6, 0x624150C4, 0x7151DF8E, 0x989ED071)
  {
    hide Schedule, Rounds, Constant;
    Constants48();
    var v := Rounds(j.h, j.block, 48);
    v := Four(j, 48, v, 0xB736D7A6, 0x68F25260, 0x2748E5EC, 0xD4B58576, 0xD8AABCF9, 0x27844711, 0x1A6BCF6A, 0xFF5E99D0);
    v := Four(j, 52, v, 0x4ECA6FA0, 0x989ED071, 0xEC02560A, 0x7151DF8E, 0xD9F0C115, 0x624150C4, 0x92952710, 0x226806D6);
  }

  lemma Last56(j: Job)
    requires Row(j, 56, 0xC8B83778, 0x75A79849, 0xD93DBDDB, 0x0A036C9D, 0xCB4F6AC6, 0x823F97E2, 0xEA2F2A7A, 0xB9018B52)
    requires At(j, 56, 0x92952710, 0xD9F0C115, 0xEC02560A, 0x4ECA6FA0, 0x226806D6, 0x624150C4, 0x7151DF8E, 0x989ED071)
    ensures At(j, 64, 0x9EA7148B, 0x908C2123, 0xB25CEF29, 0xA9F181DD, 0x2C5C4ED0, 0x9A392956, 0x2AA1BB13, 0x27CCB387)
  {
    hide Schedule, Rounds, Constant;
    Constants56();
    var v := Rounds(j.h, j.block, 56);
    v := Four(j, 56, v, 0x20D4D0E4, 0x4E515A4D, 0x4348EB1F, 0xC21EDDF9, 0x286FE5F0, 0x54076664, 0x1C4CDDD9, 0xF487A853);
    v := Four(j, 60, v, 0xA9F181DD, 0x27CCB387, 0xB25CEF29, 0x2AA1BB13, 0x908C2123, 0x9A392956, 0x9EA7148B, 0x2C5C4ED0);
  }

  lemma LastCompressed(j: Job)
    requires j.h == [0x85E655D6, 0x417A1795, 0x3363376A, 0x624CDE5C, 0x76E09589, 0xCAC5F811, 0xCC4B32C1, 0xF20E533A]
    requires Row(j, 0, 0x00000000, 0x00000000, 0x00000000, 0x00000000, 0x00000000, 0x00000000, 0x00000000, 0x00000000)
    requires Row(j, 8, 0x00000000, 0x00000000, 0x00000000, 0x00000000, 0x00000000, 0x00000000, 0x00000000, 0x000001C0)
    ensures Compress(j.h, j.block)
            == [0x248D6A61, 0xD20638B8, 0xE5C02693, 0x0C3E6039, 0xA33CE459, 0x64FF2167, 0xF6ECEDD4, 0x19DB06C1]
  {
    assert Rounds(j.h, j.block, 0) == Start(j.h);
    hide Rounds, Schedule, Row;
    Last0(j);
    Last8(j);
    Last16(j);
    Last24(j);
    Last32(j);
    Last40(j);
    Last48(j);
    Last56(j);
  }

  // ----- the digests -----

  /** "abc" */
  const ABC: seq<byte> := [0x61, 0x62, 0x63]

  /** "abcdbcdecdefdefgefghfghighijhijkijkljklmklmnlmnomnopnopq" */
  function Letters(): (m: seq<byte>)
    ensures |m| == 56
  {
    seq(56, i requires 0 <= i < 56 => (0x61 + i / 4 + i % 4) as byte)
  }

  lemma LengthOf24()
    ensures LengthBytes(24) == Fill(0, 7) + [0x18]
  {
  }

  lemma LengthOf448()
    ensures LengthBytes(448) == Fill(0, 6) + [0x01, 0xC0]
  {
  }

  lemma AbcPadded()
    ensures Pad(ABC) == [0x61, 0x62, 0x63, 0x80] + Fill(0, 59) + [0x18]
  {
    assert BitLength(ABC) == 24;
    LengthOf24();
    assert ABC + [0x80] == [0x61, 0x62, 0x63, 0x80];
    hide LengthBytes;
    assert Fill(0, 52) + (Fill(0, 7) + [0x18]) == Fill(0, 59) + [0x18];
  }

  lemma LettersPadded()
    ensures Pad(Letters()) == (Letters() + [0x80] + Fill(0, 7)) + (Fill(0, 62) + [0x01, 0xC0])
  {
    assert BitLength(Letters()) == 448;
    LengthOf448();
    hide LengthBytes, Letters;
    assert Fill(0, 63) + (Fill(0, 6) + [0x01, 0xC0]) == Fill(0, 7) + (Fill(0, 62) + [0x01, 0xC0]);
  }

  /** A word of zero bytes. */
  lemma ZeroWord(j: Job, t: nat)
    requires t < 16 && forall i :: 4 * t <= i < 4 * t + 4 ==> j.block[i] == 0
    ensures Schedule(j.block, t) == 0
  {
    assert StoreBe32(0) == [0, 0, 0, 0];
    assert j.block[4 * t..4 * t + 4] == [0, 0, 0, 0];
    hide StoreBe32, Schedule;
    Stored(j, t, 0);
  }

  lemma ZeroWords(j: Job, from: nat, to: nat)
    requires from <= to <= 16 && forall i :: 4 * from <= i < 4 * to ==> j.block[i] == 0
    ensures forall t :: from <= t < to ==> Schedule(j.block, t) == 0
  {
    hide Schedule;
    forall t | from <= t < to
      ensures Schedule(j.block, t) == 0
    {
      ZeroWord(j, t);
    }
  }

  lemma AbcWords(j: Job)
    requires j.block == [0x61, 0x62, 0x63, 0x80] + Fill(0, 59) + [0x18]
    ensures Row(j, 0, 0x61626380, 0x00000000, 0x00000000, 0x00000000, 0x00000000, 0x00000000, 0x00000000, 0x00000000)
    ensures Row(j, 8, 0x00000000, 0x00000000, 0x00000000, 0x00000000, 0x00000000, 0x00000000, 0x00000000, 0x00000018)
  {
    hide Schedule;
    AbcEnds(j);
    ZeroWords(j, 1, 15);
  }

  lemma AbcEnds(j: Job)
    requires j.block == [0x61, 0x62, 0x63, 0x80] + Fill(0, 59) + [0x18]
    ensures Schedule(j.block, 0) == 0x61626380 && Schedule(j.block, 15) == 0x00000018
  {
    assert StoreBe32(0x61626380) == [0x61, 0x62, 0x63, 0x80];
    assert StoreBe32(0x00000018) == [0, 0, 0, 0x18];
    hide StoreBe32, Schedule;
    assert j.block[4 * 0..4 * 0 + 4] == [0x61, 0x62, 0x63, 0x80];
    assert j.block[4 * 15..4 * 15 + 4] == [0, 0, 0, 0x18];
    Stored(j, 0, 0x61626380);
    Stored(j, 15, 0x00000018);
  }

  lemma FirstWords(j: Job)
    requires j.block == Letters() + [0x80] + Fill(0, 7)
    ensures Row(j, 0, 0x61626364, 0x62636465, 0x63646566, 0x64656667, 0x65666768, 0x66676869, 0x6768696A, 0x68696A6B)
    ensures Row(j, 8, 0x696A6B6C, 0x6A6B6C6D, 0x6B6C6D6E, 0x6C6D6E6F, 0x6D6E6F70, 0x6E6F7071, 0x80000000, 0x00000000)
  {
    hide Schedule, Letters;
    FirstLetters(j);
    MoreLetters(j);
    FirstEnd(j);
  }

  lemma LetterWord(j: Job, t: nat, w: bv32)
    requires j.block == Letters() + [0x80] + Fill(0, 7) && t < 14
    requires StoreBe32(w) == [(0x61 + t) as byte, (0x62 + t) as byte, (0x63 + t) as byte, (0x64 + t) as byte]
    ensures Schedule(j.block, t) == w
  {
    hide StoreBe32, Schedule;
    assert forall i :: 0 <= i < 56 ==> j.block[i] == Letters()[i];
    assert j.block[4 * t..4 * t + 4]
           == [(0x61 + t) as byte, (0x62 + t) as byte, (0x63 + t) as byte, (0x64 + t) as byte];
    Stored(j, t, w);
  }

  lemma FirstLetters(j: Job)
    requires j.block == Letters() + [0x80] + Fill(0, 7)
    ensures Row(j, 0, 0x61626364, 0x62636465, 0x63646566, 0x64656667, 0x65666768, 0x66676869, 0x6768696A, 0x68696A6B)
  {
    hide Schedule, Letters;
    LetterWord(j, 0, 0x61626364);
    LetterWord(j, 1, 0x62636465);
    LetterWord(j, 2, 0x63646566);
    LetterWord(j, 3, 0x64656667);
    LetterWord(j, 4, 0x65666768);
    LetterWord(j, 5, 0x66676869);
    LetterWord(j, 6, 0x6768696A);
    LetterWord(j, 7, 0x68696A6B);
  }

  lemma MoreLetters(j: Job)
    requires j.block == Letters() + [0x80] + Fill(0, 7)
    ensures Schedule(j.block, 8) == 0x696A6B6C && Schedule(j.block, 9) == 0x6A6B6C6D
    ensures Schedule(j.block, 10) == 0x6B6C6D6E && Schedule(j.block, 11) == 0x6C6D6E6F
    ensures Schedule(j.block, 12) == 0x6D6E6F70 && Schedule(j.block, 13) == 0x6E6F7071
  {
    hide Schedule, Letters;
    LetterWord(j, 8, 0x696A6B6C);
    LetterWord(j, 9, 0x6A6B6C6D);
    LetterWord(j, 10, 0x6B6C6D6E);
    LetterWord(j, 11, 0x6C6D6E6F);
    LetterWord(j, 12, 0x6D6E6F70);
    LetterWord(j, 13, 0x6E6F7071);
  }

  lemma FirstEnd(j: Job)
    requires j.block == Letters() + [0x80] + Fill(0, 7)
    ensures Schedule(j.block, 14) == 0x80000000 && Schedule(j.block, 15) == 0
  {
    assert StoreBe32(0x80000000) == [0x80, 0, 0, 0];
    hide StoreBe32, Schedule;
    assert j.block[4 * 14..4 * 14 + 4] == [0x80, 0, 0, 0];
    Stored(j, 14, 0x80000000);
    ZeroWord(j, 15);
  }

  lemma SecondWords(j: Job)
    requires j.block == Fill(0, 62) + [0x01, 0xC0]
    ensures Row(j, 0, 0x00000000, 0x00000000, 0x00000000, 0x00000000, 0x00000000, 0x00000000, 0x00000000, 0x00000000)
    ensures Row(j, 8, 0x00000000, 0x00000000, 0x00000000, 0x00000000, 0x00000000, 0x00000000, 0x00000000, 0x000001C0)
  {
    hide Schedule;
    SecondEnd(j);
    ZeroWords(j, 0, 15);
  }

  lemma SecondEnd(j: Job)
    requires j.block == Fill(0, 62) + [0x01, 0xC0]
    ensures Schedule(j.block, 15) == 0x000001C0
  {
    assert StoreBe32(0x000001C0) == [0, 0, 0x01, 0xC0];
    hide StoreBe32, Schedule;
    assert j.block[4 * 15..4 * 15 + 4] == [0, 0, 0x01, 0xC0];
    Stored(j, 15, 0x000001C0);
  }

  lemma OneBlock(message: seq<byte>)
    requires |Pad(message)| == BLOCK
    ensures Digest(message) == StateBytes(Compress(InitialState(), Pad(message)))
  {
    hide Pad, Compress, StateBytes, InitialState;
    var p := Pad(message);
    assert [] + p == p;
    BlocksAppend(InitialState(), [], p);
  }

  lemma TwoBlocks(message: seq<byte>, first: seq<byte>, second: seq<byte>)
    requires |first| == |second| == BLOCK && Pad(message) == first + second
    ensures Digest(message) == StateBytes(Compress(Compress(InitialState(), first), second))
  {
    hide Pad, Compress, StateBytes, InitialState;
    assert [] + first == first;
    BlocksAppend(InitialState(), [], first);
    BlocksAppend(InitialState(), first, second);
  }

  lemma FourWords(s: seq<bv32>, a: bv32, b: bv32, c: bv32, d: bv32)
    ensures StateBytes(s + [a, b, c, d])
            == StateBytes(s) + (StoreBe32(a) + StoreBe32(b) + StoreBe32(c) + StoreBe32(d))
  {
    OneWord(s, a);
    OneWord(s + [a], b);
    OneWord(s + [a] + [b], c);
    OneWord(s + [a] + [b] + [c], d);
    hide StateBytes, StoreBe32;
    assert s + [a] + [b] + [c] + [d] == s + [a, b, c, d];
  }

  lemma OneWord(s: seq<bv32>, a: bv32)
    ensures StateBytes(s + [a]) == StateBytes(s) + StoreBe32(a)
  {
    hide StoreBe32;
    assert (s + [a])[..|s|] == s;
  }

  lemma EightWords(a: bv32, b: bv32, c: bv32, d: bv32, e: bv32, f: bv32, g: bv32, h: bv32)
    ensures StateBytes([a, b, c, d, e, f, g, h])
            == (StoreBe32(a) + StoreBe32(b) + StoreBe32(c) + StoreBe32(d))
               + (StoreBe32(e) + StoreBe32(f) + StoreBe32(g) + StoreBe32(h))
  {
    assert StateBytes([]) == [];
    hide StateBytes, StoreBe32;
    FourWords([], a, b, c, d);
    FourWords([a, b, c, d], e, f, g, h);
    assert [] + [a, b, c, d] == [a, b, c, d];
    assert [a, b, c, d] + [e, f, g, h] == [a, b, c, d, e, f, g, h];
  }

  lemma AbcBytes0()
    ensures StoreBe32(0xBA7816BF) + StoreBe32(0x8F01CFEA) + StoreBe32(0x414140DE) + StoreBe32(0x5DAE2223)
            == [0xBA, 0x78, 0x16, 0xBF, 0x8F, 0x01, 0xCF, 0xEA, 0x41, 0x41, 0x40, 0xDE, 0x5D, 0xAE, 0x22, 0x23]
  {
    assert StoreBe32(0xBA7816BF) == [0xBA, 0x78, 0x16, 0xBF];
    assert StoreBe32(0x8F01CFEA) == [0x8F, 0x01, 0xCF, 0xEA];
    assert StoreBe32(0x414140DE) == [0x41, 0x41, 0x40, 0xDE];
    assert StoreBe32(0x5DAE2223) == [0x5D, 0xAE, 0x22, 0x23];
    hide StoreBe32;
  }

  lemma AbcBytes16()
    ensures StoreBe32(0xB00361A3) + StoreBe32(0x96177A9C) + StoreBe32(0xB410FF61) + StoreBe32(0xF20015AD)
            == [0xB0, 0x03, 0x61, 0xA3, 0x96, 0x17, 0x7A, 0x9C, 0xB4, 0x10, 0xFF, 0x61, 0xF2, 0x00, 0x15, 0xAD]
  {
    assert StoreBe32(0xB00361A3) == [0xB0, 0x03, 0x61, 0xA3];
    assert StoreBe32(0x96177A9C) == [0x96, 0x17, 0x7A, 0x9C];
    assert StoreBe32(0xB410FF61) == [0xB4, 0x10, 0xFF, 0x61];
    assert StoreBe32(0xF20015AD) == [0xF2, 0x00, 0x15, 0xAD];
    hide StoreBe32;
  }

  lemma AbcBytes()
    ensures StateBytes([0xBA7816BF, 0x8F01CFEA, 0x414140DE, 0x5DAE2223,
                        0xB00361A3, 0x96177A9C, 0xB410FF61, 0xF20015AD])
            == [0xBA, 0x78, 0x16, 0xBF, 0x8F, 0x01, 0xCF, 0xEA, 0x41, 0x41, 0x40, 0xDE, 0x5D, 0xAE, 0x22, 0x23,
               0xB0, 0x03, 0x61, 0xA3, 0x96, 0x17, 0x7A, 0x9C, 0xB4, 0x10, 0xFF, 0x61, 0xF2, 0x00, 0x15, 0xAD]
  {
    hide StoreBe32, StateBytes;
    EightWords(0xBA7816BF, 0x8F01CFEA, 0x414140DE, 0x5DAE2223,
               0xB00361A3, 0x96177A9C, 0xB410FF61, 0xF20015AD);
    AbcBytes0();
    AbcBytes16();
  }

  lemma LettersBytes0()
    ensures StoreBe32(0x248D6A61) + StoreBe32(0xD20638B8) + StoreBe32(0xE5C02693) + StoreBe32(0x0C3E6039)
            == [0x24, 0x8D, 0x6A, 0x61, 0xD2, 0x06, 0x38, 0xB8, 0xE5, 0xC0, 0x26, 0x93, 0x0C, 0x3E, 0x60, 0x39]
  {
    assert StoreBe32(0x248D6A61) == [0x24, 0x8D, 0x6A, 0x61];
    assert StoreBe32(0xD20638B8) == [0xD2, 0x06, 0x38, 0xB8];
    assert StoreBe32(0xE5C02693) == [0xE5, 0xC0, 0x26, 0x93];
    assert StoreBe32(0x0C3E6039) == [0x0C, 0x3E, 0x60, 0x39];
    hide StoreBe32;
  }

  lemma LettersBytes16()
    ensures StoreBe32(0xA33CE459) + StoreBe32(0x64FF2167) + StoreBe32(0xF6ECEDD4) + StoreBe32(0x19DB06C1)
            == [0xA3, 0x3C, 0xE4, 0x59, 0x64, 0xFF, 0x21, 0x67, 0xF6, 0xEC, 0xED, 0xD4, 0x19, 0xDB, 0x06, 0xC1]
  {
    assert StoreBe32(0xA33CE459) == [0xA3, 0x3C, 0xE4, 0x59];
    assert StoreBe32(0x64FF2167) == [0x64, 0xFF, 0x21, 0x67];
    assert StoreBe32(0xF6ECEDD4) == [0xF6, 0xEC, 0xED, 0xD4];
    assert StoreBe32(0x19DB06C1) == [0x19, 0xDB, 0x06, 0xC1];
    hide StoreBe32;
  }

  lemma LettersBytes()
    ensures StateBytes([0x248D6A61, 0xD20638B8, 0xE5C02693, 0x0C3E6039,
                        0xA33CE459, 0x64FF2167, 0xF6ECEDD4, 0x19DB06C1])
            == [0x24, 0x8D, 0x6A, 0x61, 0xD2, 0x06, 0x38, 0xB8, 0xE5, 0xC0, 0x26, 0x93, 0x0C, 0x3E, 0x60, 0x39,
               0xA3, 0x3C, 0xE4, 0x59, 0x64, 0xFF, 0x21, 0x67, 0xF6, 0xEC, 0xED, 0xD4, 0x19, 0xDB, 0x06, 0xC1]
  {
    hide StoreBe32, StateBytes;
    EightWords(0x248D6A61, 0xD20638B8, 0xE5C02693, 0x0C3E6039,
               0xA33CE459, 0x64FF2167, 0xF6ECEDD4, 0x19DB06C1);
    LettersBytes0();
    LettersBytes16();
  }

  /** The digest of "abc", one block. */
  lemma AbcDigest()
    ensures Digest(ABC)
            == [0xBA, 0x78, 0x16, 0xBF, 0x8F, 0x01, 0xCF, 0xEA, 0x41, 0x41, 0x40, 0xDE, 0x5D, 0xAE, 0x22, 0x23,
               0xB0, 0x03, 0x61, 0xA3, 0x96, 0x17, 0x7A, 0x9C, 0xB4, 0x10, 0xFF, 0x61, 0xF2, 0x00, 0x15, 0xAD]
  {
    AbcPadded();
    hide Pad, Compress, Schedule, StateBytes;
    var j := Task(InitialState(), Pad(ABC));
    AbcWords(j);
    AbcCompressed(j);
    OneBlock(ABC);
    AbcBytes();
  }

  /** The digest of the 56-byte message, two blocks. */
  lemma LettersDigest()
    ensures Digest(Letters())
            == [0x24, 0x8D, 0x6A, 0x61, 0xD2, 0x06, 0x38, 0xB8, 0xE5, 0xC0, 0x26, 0x93, 0x0C, 0x3E, 0x60, 0x39,
               0xA3, 0x3C, 0xE4, 0x59, 0x64, 0xFF, 0x21, 0x67, 0xF6, 0xEC, 0xED, 0xD4, 0x19, 0xDB, 0x06, 0xC1]
  {
    LettersPadded();
    hide Pad, Compress, Schedule, StateBytes, Letters;
    var first, second := Letters() + [0x80] + Fill(0, 7), Fill(0, 62) + [0x01, 0xC0];
    var j := Task(InitialState(), first);
    FirstWords(j);
    LongCompressed(j);
    var k := Task(Compress(InitialState(), first), second);
    SecondWords(k);
    LastCompressed(k);
    TwoBlocks(Letters(), first, second);
    LettersBytes();
  }
}
