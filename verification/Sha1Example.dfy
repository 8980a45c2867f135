/** The digest of the three bytes abc, which FIPS 180-4 refers to as an example: every constant, rotation and offset of
    the hash computation has a part in it. */
module Sha1Example {
  import opened Words
  import opened Arithmetic
  import opened Sha1Standard

  const ABC: seq<byte> := [0x61, 0x62, 0x63]

  /** The message schedule of the one block. */
  function Scheduled(t: nat): bv32 {
    if t == 0 then 0x61626380 else if t == 1 then 0x00000000 else if t == 2 then 0x00000000
    else if t == 3 then 0x00000000 else if t == 4 then 0x00000000 else if t == 5 then 0x00000000
    else if t == 6 then 0x00000000 else if t == 7 then 0x00000000 else if t == 8 then 0x00000000
    else if t == 9 then 0x00000000 else if t == 10 then 0x00000000 else if t == 11 then 0x00000000
    else if t == 12 then 0x00000000 else if t == 13 then 0x00000000 else if t == 14 then 0x00000000
    else if t == 15 then 0x00000018 else if t == 16 then 0xC2C4C700 else if t == 17 then 0x00000000
    else if t == 18 then 0x00000030 else if t == 19 then 0x85898E01 else if t == 20 then 0x00000000
    else if t == 21 then 0x00000060 else if t == 22 then 0x0B131C03 else if t == 23 then 0x00000030
    else if t == 24 then 0x85898EC1 else if t == 25 then 0x16263806 else if t == 26 then 0x00000000
    else if t == 27 then 0x00000180 else if t == 28 then 0x2C4C700C else if t == 29 then 0x000000F0
    else if t == 30 then 0x93AFB507 else if t == 31 then 0x5898E048 else if t == 32 then 0x8E9A9202
    else if t == 33 then 0x00000600 else if t == 34 then 0xB131C0F0 else if t == 35 then 0x16263BC6
    else if t == 36 then 0x4EBED41E else if t == 37 then 0x626380A1 else if t == 38 then 0x16263806
    else if t == 39 then 0x000018C0 else if t == 40 then 0xD2E138C4 else if t == 41 then 0x00000F00
    else if t == 42 then 0x3AFB5079 else if t == 43 then 0x898E04E5 else if t == 44 then 0xE2BA3C2B
    else if t == 45 then 0x000060C0 else if t == 46 then 0x053A37CD else if t == 47 then 0x74458547
    else if t == 48 then 0xDA9415ED else if t == 49 then 0x26380A16 else if t == 50 then 0x626383A1
    else if t == 51 then 0x4EBF54DE else if t == 52 then 0x3835B44B else if t == 53 then 0x0000F600
    else if t == 54 then 0x1E84C7A3 else if t == 55 then 0x98E04D98 else if t == 56 then 0x651D16A0
    else if t == 57 then 0x62658CA1 else if t == 58 then 0x458544D6 else if t == 59 then 0x44584CB7
    else if t == 60 then 0x7BA06619 else if t == 61 then 0x6380AEA2 else if t == 62 then 0x0AE55269
    else if t == 63 then 0x627B49A1 else if t == 64 then 0x7CD45C9D else if t == 65 then 0x000F0000
    else if t == 66 then 0xFB50753A else if t == 67 then 0xEC6765E8 else if t == 68 then 0xBA3C2BE2
    else if t == 69 then 0x0060C000 else if t == 70 then 0x3A37CD05 else if t == 71 then 0x458546F4
    else if t == 72 then 0xB8599DD6 else if t == 73 then 0x380A1A26 else if t == 74 then 0x01E02203
    else if t == 75 then 0xE7CC3456 else if t == 76 then 0xE6E60B69 else if t == 77 then 0x00F60A00
    else if t == 78 then 0x5795EF4F
    else 0x822E0879
  }

  /** The first working variable before round t; the others are earlier ones. */
  function First(t: nat): bv32 {
    if t == 0 then 0x67452301 else if t == 1 then 0x0116FC33 else if t == 2 then 0x8990536D
    else if t == 3 then 0xA1390F08 else if t == 4 then 0xCDD8E11B else if t == 5 then 0xCFD499DE
    else if t == 6 then 0x3FC7CA40 else if t == 7 then 0x993E30C1 else if t == 8 then 0x9E8C07D4
    else if t == 9 then 0x4B6AE328 else if t == 10 then 0x8351F929 else if t == 11 then 0xFBDA9E89
    else if t == 12 then 0x63188FE4 else if t == 13 then 0x4607B664 else if t == 14 then 0x9128F695
    else if t == 15 then 0x196BEE77 else if t == 16 then 0x20BDD62F else if t == 17 then 0x4E925823
    else if t == 18 then 0x82AA6728 else if t == 19 then 0xDC64901D else if t == 20 then 0xFD9E1D7D
    else if t == 21 then 0x1A37B0CA else if t == 22 then 0x33A23BFC else if t == 23 then 0x21283486
    else if t == 24 then 0xD541F12D else if t == 25 then 0xC7567DC6 else if t == 26 then 0x48413BA4
    else if t == 27 then 0xBE35FBD5 else if t == 28 then 0x4AA84D97 else if t == 29 then 0x8370B52E
    else if t == 30 then 0xC5FBAF5D else if t == 31 then 0x1267B407 else if t == 32 then 0x3B845D33
    else if t == 33 then 0x046FAA0A else if t == 34 then 0x2C0EBC11 else if t == 35 then 0x21796AD4
    else if t == 36 then 0xDCBBB0CB else if t == 37 then 0x0F511FD8 else if t == 38 then 0xDC63973F
    else if t == 39 then 0x4C986405 else if t == 40 then 0x32DE1CBA else if t == 41 then 0xFC87DEDF
    else if t == 42 then 0x970A0D5C else if t == 43 then 0x7F193DC5 else if t == 44 then 0xEE1B1AAF
    else if t == 45 then 0x40F28E09 else if t == 46 then 0x1C51E1F2 else if t == 47 then 0xA01B846C
    else if t == 48 then 0xBEAD02CA else if t == 49 then 0xBAF39337 else if t == 50 then 0x120731C5
    else if t == 51 then 0x641DB2CE else if t == 52 then 0x3847AD66 else if t == 53 then 0xE490436D
    else if t == 54 then 0x27E9F1D8 else if t == 55 then 0x7B71F76D else if t == 56 then 0x5E6456AF
    else if t == 57 then 0xC846093F else if t == 58 then 0xD262FF50 else if t == 59 then 0x09D785FD
    else if t == 60 then 0x3F52DE5A else if t == 61 then 0xD756C147 else if t == 62 then 0x548C9CB2
    else if t == 63 then 0xB66C020B else if t == 64 then 0x6B61C9E1 else if t == 65 then 0x19DFA7AC
    else if t == 66 then 0x101655F9 else if t == 67 then 0x0C3DF2B4 else if t == 68 then 0x78DD4D2B
    else if t == 69 then 0x497093C0 else if t == 70 then 0x3F2588C2 else if t == 71 then 0xC199F8C7
    else if t == 72 then 0x39859DE7 else if t == 73 then 0xEDB42DE4 else if t == 74 then 0x11793F6F
    else if t == 75 then 0x5EE76897 else if t == 76 then 0x63F7DAB7 else if t == 77 then 0xA079B7D9
    else if t == 78 then 0x860D21CC else if t == 79 then 0x5738D5E1
    else 0x42541B35
  }

  /** The first working variable k rounds before round t; before the first round, what the others start from. */
  function Back(t: nat, k: nat): bv32 {
    if k <= t then First(t - k)
    else if k == t + 1 then 0xEFCDAB89 else if k == t + 2 then 0x62EB73FA else if k == t + 3 then 0x40C951D8
    else 0x0F4B87C3
  }

  /** The working variables before round t. */
  function Working(t: nat): Hash {
    Hash(First(t), Back(t, 1), Back(t, 2).RotateLeft(30), Back(t, 3).RotateLeft(30), Back(t, 4).RotateLeft(30))
  }

  predicate ScheduleStep(t: nat) {
    Scheduled(t + 16) == ScheduleWord(Scheduled(t + 13), Scheduled(t + 8), Scheduled(t + 2), Scheduled(t))
  }

  predicate RoundStep(t: nat) {
    Working(t + 1) == Round(Working(t), t, Scheduled(t))
  }

  lemma Words0(t: nat)
    requires 0 <= t < 8
    ensures ScheduleStep(t)
  {}

  lemma Words8(t: nat)
    requires 8 <= t < 16
    ensures ScheduleStep(t)
  {}

  lemma Words16(t: nat)
    requires 16 <= t < 24
    ensures ScheduleStep(t)
  {}

  lemma Words24(t: nat)
    requires 24 <= t < 32
    ensures ScheduleStep(t)
  {}

  lemma Words32(t: nat)
    requires 32 <= t < 40
    ensures ScheduleStep(t)
  {}

  lemma Words40(t: nat)
    requires 40 <= t < 48
    ensures ScheduleStep(t)
  {}

  lemma Words48(t: nat)
    requires 48 <= t < 56
    ensures ScheduleStep(t)
  {}

  lemma Words56(t: nat)
    requires 56 <= t < 64
    ensures ScheduleStep(t)
  {}

  lemma ScheduleSteps(t: nat)
    requires t < 64
    ensures ScheduleStep(t)
  {
    if t < 8 { Words0(t); }
    else if t < 16 { Words8(t); }
    else if t < 24 { Words16(t); }
    else if t < 32 { Words24(t); }
    else if t < 40 { Words32(t); }
    else if t < 48 { Words40(t); }
    else if t < 56 { Words48(t); }
    else { Words56(t); }
  }

  /** Eight numbers, one by one. */
  lemma Eight(p: nat -> bool, from: nat)
    requires p(from) && p(from + 1) && p(from + 2) && p(from + 3) && p(from + 4) && p(from + 5)
             && p(from + 6) && p(from + 7)
    ensures forall t: nat :: from <= t < from + 8 ==> p(t)
  {}

  lemma Rounds0()
    ensures forall t: nat :: 0 <= t < 16 ==> RoundStep(t)
  {
    Eight(RoundStep, 0);
    Eight(RoundStep, 8);
  }

  lemma Rounds16()
    ensures forall t: nat :: 16 <= t < 32 ==> RoundStep(t)
  {
    Eight(RoundStep, 16);
    Eight(RoundStep, 24);
  }

  lemma Rounds32()
    ensures forall t: nat :: 32 <= t < 48 ==> RoundStep(t)
  {
    Eight(RoundStep, 32);
    Eight(RoundStep, 40);
  }

  lemma Rounds48()
    ensures forall t: nat :: 48 <= t < 64 ==> RoundStep(t)
  {
    Eight(RoundStep, 48);
    Eight(RoundStep, 56);
  }

  lemma Rounds64()
    ensures forall t: nat :: 64 <= t < 80 ==> RoundStep(t)
  {
    Eight(RoundStep, 64);
    Eight(RoundStep, 72);
  }

  lemma RoundSteps(t: nat)
    requires t < 80
    ensures RoundStep(t)
  {
    Rounds0();
    Rounds16();
    Rounds32();
    Rounds48();
    Rounds64();
  }

  // ----- the one block -----

  lemma {:induction false} NoBytes(n: nat)
    ensures I2osp(0, n) == seq(n, _ => 0)
  {
    if n != 0 {
      NoBytes(n - 1);
    }
  }

  lemma LengthBytes(n: nat)
    requires n != 0
    ensures I2osp(24, n) == seq(n - 1, _ => 0) + [24]
  {
    NoBytes(n - 1);
  }

  /** The padding of three bytes: 80, zeros, and the length of 24 bits. */
  lemma OneBlock()
    ensures Padded(ABC) == ABC + ([0x80] + seq(52, _ => 0) + (seq(7, _ => 0) + [24]))
  {
    assert |ABC| == 3 && ZeroBytes(3) == 52;
    LengthBytes(8);
  }

  predicate IsBlock(block: seq<byte>) {
    |block| == 64 && forall t: nat :: t < 16 ==> BlockWord(block, t) == Scheduled(t)
  }

  lemma JoinedWords(t: nat)
    requires t < 16
    ensures Scheduled(t) == if t == 0 then JoinBytes(0x61, 0x62, 0x63, 0x80)
                            else if t == 15 then JoinBytes(0, 0, 0, 24) else JoinBytes(0, 0, 0, 0)
  {}

  lemma FirstWords(block: seq<byte>)
    requires |block| == 64 && block == ABC + ([0x80] + seq(52, _ => 0) + (seq(7, _ => 0) + [24]))
    ensures IsBlock(block)
  {
    assert block[0] == 0x61 && block[1] == 0x62 && block[2] == 0x63 && block[3] == 0x80 && block[63] == 24;
    assert forall k :: 4 <= k < 63 ==> block[k] == 0;
    forall t: nat | t < 16
      ensures BlockWord(block, t) == Scheduled(t)
    {
      JoinedWords(t);
    }
  }

  lemma {:induction false} WordsOf(block: seq<byte>, t: nat)
    requires IsBlock(block) && t < 80
    ensures W(block, t) == Scheduled(t)
  {
    if t >= 16 {
      ScheduleSteps(t - 16);
      WordsOf(block, t - 3);
      WordsOf(block, t - 8);
      WordsOf(block, t - 14);
      WordsOf(block, t - 16);
    }
  }

  lemma {:induction false} RoundsOf(block: seq<byte>, t: nat)
    requires IsBlock(block) && t <= 80
    ensures Rounds(INITIAL, block, t) == Working(t)
  {
    if t != 0 {
      RoundsOf(block, t - 1);
      WordsOf(block, t - 1);
      RoundSteps(t - 1);
    }
  }

  lemma ChainOfOne(m: seq<byte>)
    requires |m| == 64
    ensures Chain(m) == Compress(INITIAL, m)
  {
    assert m[..0] == [] && m[0..] == m;
  }

  lemma Compressed(r: Hash)
    requires r == Hash(0x42541B35, 0x5738D5E1, 0x21834873, 0x681E6DF6, 0xD8FDF6AD)
    ensures Hash(Add(INITIAL.a, r.a), Add(INITIAL.b, r.b), Add(INITIAL.c, r.c), Add(INITIAL.d, r.d),
                 Add(INITIAL.e, r.e))
            == Hash(0xA9993E36, 0x4706816A, 0xBA3E2571, 0x7850C26C, 0x9CD0D89D)
  {}

  lemma LastWorking(t: nat)
    requires t == 80
    ensures Working(t) == Hash(0x42541B35, 0x5738D5E1, 0x21834873, 0x681E6DF6, 0xD8FDF6AD)
  {}

  lemma DigestBytes(h: Hash)
    requires h == Hash(0xA9993E36, 0x4706816A, 0xBA3E2571, 0x7850C26C, 0x9CD0D89D)
    ensures Digest(h) == [0xA9, 0x99, 0x3E, 0x36, 0x47, 0x06, 0x81, 0x6A, 0xBA, 0x3E, 0x25, 0x71, 0x78, 0x50, 0xC2,
                          0x6C, 0x9C, 0xD0, 0xD8, 0x9D]
  {}

  lemma CompressIs(h: Hash, block: seq<byte>, t: nat, r: Hash)
    requires |block| == 64 && t == 80 && Rounds(h, block, t) == r
    ensures Compress(h, block) == Hash(Add(h.a, r.a), Add(h.b, r.b), Add(h.c, r.c), Add(h.d, r.d), Add(h.e, r.e))
  {}

  lemma ChainOfAbc(block: seq<byte>, t: nat)
    requires IsBlock(block) && t == 80
    ensures Chain(block) == Hash(0xA9993E36, 0x4706816A, 0xBA3E2571, 0x7850C26C, 0x9CD0D89D)
  {
    RoundsOf(block, t);
    ChainOfOne(block);
    CompressIs(INITIAL, block, t, Working(t));
    LastWorking(t);
    Compressed(Working(t));
  }

  /** The digest of abc. */
  lemma DigestOfAbc()
    ensures Sha1(ABC) == [0xA9, 0x99, 0x3E, 0x36, 0x47, 0x06, 0x81, 0x6A, 0xBA, 0x3E, 0x25, 0x71, 0x78, 0x50, 0xC2,
                          0x6C, 0x9C, 0xD0, 0xD8, 0x9D]
  {
    var block := Padded(ABC);
    OneBlock();
    FirstWords(block);
    ChainOfAbc(block, 80);
    DigestBytes(Chain(block));
  }
}
