/** The MD5 message digest: section 3 of RFC 1321 as the reference, and the streaming
    implementation with its register-rotating round loop proved against it. */
module Md5 {
  import opened ByteBits
  import opened Common

  type Word = bv32

  /** The four registers A, B, C and D. */
  datatype Regs = Regs(a: Word, b: Word, c: Word, d: Word)

  type Block = x: seq<Word> | |x| == 16 witness seq(16, _ => 0)

  // ---------------------------------------------------------------- RFC 1321, section 3.4

  /** T[1..64], sixteen to a round. */
  function TRow(round: nat): (r: seq<Word>)
    ensures |r| == 16
  {
    match round
    case 0 =>
      [0xd76a_a478, 0xe8c7_b756, 0x2420_70db, 0xc1bd_ceee, 0xf57c_0faf, 0x4787_c62a, 0xa830_4613, 0xfd46_9501,
         0x6980_98d8, 0x8b44_f7af, 0xffff_5bb1, 0x895c_d7be, 0x6b90_1122, 0xfd98_7193, 0xa679_438e, 0x49b4_0821]
    case 1 =>
      [0xf61e_2562, 0xc040_b340, 0x265e_5a51, 0xe9b6_c7aa, 0xd62f_105d, 0x0244_1453, 0xd8a1_e681, 0xe7d3_fbc8,
         0x21e1_cde6, 0xc337_07d6, 0xf4d5_0d87, 0x455a_14ed, 0xa9e3_e905, 0xfcef_a3f8, 0x676f_02d9, 0x8d2a_4c8a]
    case 2 =>
      [0xfffa_3942, 0x8771_f681, 0x6d9d_6122, 0xfde5_380c, 0xa4be_ea44, 0x4bde_cfa9, 0xf6bb_4b60, 0xbebf_bc70,
         0x289b_7ec6, 0xeaa1_27fa, 0xd4ef_3085, 0x0488_1d05, 0xd9d4_d039, 0xe6db_99e5, 0x1fa2_7cf8, 0xc4ac_5665]
    case _ =>
      [0xf429_2244, 0x432a_ff97, 0xab94_23a7, 0xfc93_a039, 0x655b_59c3, 0x8f0c_cc92, 0xffef_f47d, 0x8584_5dd1,
         0x6fa8_7e4f, 0xfe2c_e6e0, 0xa301_4314, 0x4e08_11a1, 0xf753_7e82, 0xbd3a_f235, 0x2ad7_d2bb, 0xeb86_d391]
  }

  /** The `k` column of the operations of a round, as printed. */
  function KRow(round: nat): (r: seq<nat>)
    ensures |r| == 16 && forall j :: 0 <= j < 16 ==> r[j] < 16
  {
    match round
    case 0 => [0, 1, 2, 3, 4, 5, 6, 7, 8, 9, 10, 11, 12, 13, 14, 15]
    case 1 => [1, 6, 11, 0, 5, 10, 15, 4, 9, 14, 3, 8, 13, 2, 7, 12]
    case 2 => [5, 8, 11, 14, 1, 4, 7, 10, 13, 0, 3, 6, 9, 12, 15, 2]
    case _ => [0, 7, 14, 5, 12, 3, 10, 1, 8, 15, 6, 13, 4, 11, 2, 9]
  }

  /** The `s` column of the operations of a round, as printed. */
  function SRow(round: nat): (r: seq<nat>)
    ensures |r| == 16
  {
    match round
    case 0 => [7, 12, 17, 22, 7, 12, 17, 22, 7, 12, 17, 22, 7, 12, 17, 22]
    case 1 => [5, 9, 14, 20, 5, 9, 14, 20, 5, 9, 14, 20, 5, 9, 14, 20]
    case 2 => [4, 11, 16, 23, 4, 11, 16, 23, 4, 11, 16, 23, 4, 11, 16, 23]
    case _ => [6, 10, 15, 21, 6, 10, 15, 21, 6, 10, 15, 21, 6, 10, 15, 21]
  }

  function F(x: Word, y: Word, z: Word): Word { (x & y) | (!x & z) }
  function G(x: Word, y: Word, z: Word): Word { (x & z) | (y & !z) }
  function H(x: Word, y: Word, z: Word): Word { x ^ y ^ z }
  function I(x: Word, y: Word, z: Word): Word { y ^ (x | !z) }

  function Auxiliary(round: nat, x: Word, y: Word, z: Word): Word {
    match round
    case 0 => F(x, y, z)
    case 1 => G(x, y, z)
    case 2 => H(x, y, z)
    case _ => I(x, y, z)
  }

  /** X <<< s: the top bit moved to the bottom, `s` times. */
  function Rotl(x: Word, s: nat): Word
    decreases s
  {
    if s == 0 then x else Rotl((x << 1) | (x >> 31), s - 1)
  }

  function Sum(a: Word, f: Word, x: Word, t: Word): Word { a + f + x + t }
  function Shifted(b: Word, sum: Word, s: nat): Word { b + Rotl(sum, s) }

  /** [abcd k s i]: a = b + ((a + f(b, c, d) + X[k] + T[i]) <<< s). The new value of `a`. */
  function Operation(round: nat, a: Word, b: Word, c: Word, d: Word, x: Word, s: nat, t: Word): Word {
    Shifted(b, Sum(a, Auxiliary(round, b, c, d), x, t), s)
  }

  /** The registers in the order an operation names them: [ABCD], [DABC], [CDAB], [BCDA]. */
  function Roles(r: Regs, role: nat): Regs {
    match role
    case 0 => r
    case 1 => Regs(r.d, r.a, r.b, r.c)
    case 2 => Regs(r.c, r.d, r.a, r.b)
    case _ => Regs(r.b, r.c, r.d, r.a)
  }

  /** Assigns the register an operation names first. */
  function Assign(r: Regs, role: nat, v: Word): Regs {
    match role
    case 0 => r.(a := v)
    case 1 => r.(d := v)
    case 2 => r.(c := v)
    case _ => r.(b := v)
  }

  /** Operation number `n`, counted from 0: the roles of the registers move one place each
      time. */
  function RfcStep(r: Regs, x: Block, n: nat): Regs
    requires n < 64
  {
    var q := Roles(r, n % 4);
    Assign(r, n % 4,
           Operation(n / 16, q.a, q.b, q.c, q.d, x[KRow(n / 16)[n % 16]], SRow(n / 16)[n % 16], TRow(n / 16)[n % 16]))
  }

  function RfcSteps(r: Regs, x: Block, n: nat): Regs
    requires n <= 64
  {
    if n == 0 then r else RfcStep(RfcSteps(r, x, n - 1), x, n - 1)
  }

  function Increment(r: Regs, e: Regs): Regs { Regs(r.a + e.a, r.b + e.b, r.c + e.c, r.d + e.d) }

  /** The four rounds, then the saved values added back. */
  function Compress(r: Regs, x: Block): Regs {
    Increment(r, RfcSteps(r, x, 4 * |x|))
  }

  // ---------------------------------------------------------------- the rotating loop

  const SHIFTS: seq<nat> := [7, 12, 17, 22, 5, 9, 14, 20, 4, 11, 16, 23, 6, 10, 15, 21]

  /** The message index the loop computes. */
  function MessageIndex(n: nat): (g: nat)
    ensures g < 16
  {
    if n < 16 then n
    else if n < 32 then (5 * n + 1) % 16
    else if n < 48 then (3 * n + 5) % 16
    else (7 * n) % 16
  }

  /** The selection of the second round, the other way round from `G`. */
  function LoopG(b: Word, c: Word, d: Word): Word { (d & b) | (!d & c) }

  lemma LoopGIsG(b: Word, c: Word, d: Word)
    ensures LoopG(b, c, d) == G(b, c, d)
  {
  }

  /** The function value the loop computes. */
  function LoopF(n: nat, b: Word, c: Word, d: Word): Word {
    if n < 16 then F(b, c, d)
    else if n < 32 then LoopG(b, c, d)
    else if n < 48 then H(b, c, d)
    else I(b, c, d)
  }

  lemma RoundOf(n: nat)
    requires n < 64
    ensures n / 16 == if n < 16 then 0 else if n < 32 then 1 else if n < 48 then 2 else 3
    ensures n == 16 * (n / 16) + n % 16 && n % 4 == n % 16 % 4
  {
  }

  lemma LoopFIsAuxiliary(n: nat, b: Word, c: Word, d: Word)
    requires n < 64
    ensures LoopF(n, b, c, d) == Auxiliary(n / 16, b, c, d)
  {
    RoundOf(n);
    if 16 <= n < 32 { LoopGIsG(b, c, d); }
  }

  lemma FirstColumn(j: nat)
    requires j < 16
    ensures KRow(0)[j] == MessageIndex(0 + j)
  {
    match j {
      case 0 => case 1 => case 2 => case 3 => case 4 => case 5 => case 6 => case 7 =>
      case 8 => case 9 => case 10 => case 11 => case 12 => case 13 => case 14 => case _ =>
    }
  }

  lemma SecondColumn(j: nat)
    requires j < 16
    ensures KRow(1)[j] == MessageIndex(16 + j)
  {
    match j {
      case 0 => case 1 => case 2 => case 3 => case 4 => case 5 => case 6 => case 7 =>
      case 8 => case 9 => case 10 => case 11 => case 12 => case 13 => case 14 => case _ =>
    }
  }

  lemma ThirdColumn(j: nat)
    requires j < 16
    ensures KRow(2)[j] == MessageIndex(32 + j)
  {
    match j {
      case 0 => case 1 => case 2 => case 3 => case 4 => case 5 => case 6 => case 7 =>
      case 8 => case 9 => case 10 => case 11 => case 12 => case 13 => case 14 => case _ =>
    }
  }

  lemma FourthColumn(j: nat)
    requires j < 16
    ensures KRow(3)[j] == MessageIndex(48 + j)
  {
    match j {
      case 0 => case 1 => case 2 => case 3 => case 4 => case 5 => case 6 => case 7 =>
      case 8 => case 9 => case 10 => case 11 => case 12 => case 13 => case 14 => case _ =>
    }
  }

  /** The computed message index is the printed column. */
  lemma IndexColumn(n: nat)
    requires n < 64
    ensures KRow(n / 16)[n % 16] == MessageIndex(n)
  {
    RoundOf(n);
    if n < 16 { FirstColumn(n % 16); }
    else if n < 32 { SecondColumn(n % 16); }
    else if n < 48 { ThirdColumn(n % 16); }
    else { FourthColumn(n % 16); }
  }

  lemma FirstShifts(j: nat)
    requires j < 16
    ensures SRow(0)[j] == SHIFTS[0 + j % 4]
  {
    match j {
      case 0 => case 1 => case 2 => case 3 => case 4 => case 5 => case 6 => case 7 =>
      case 8 => case 9 => case 10 => case 11 => case 12 => case 13 => case 14 => case _ =>
    }
  }

  lemma SecondShifts(j: nat)
    requires j < 16
    ensures SRow(1)[j] == SHIFTS[4 + j % 4]
  {
    match j {
      case 0 => case 1 => case 2 => case 3 => case 4 => case 5 => case 6 => case 7 =>
      case 8 => case 9 => case 10 => case 11 => case 12 => case 13 => case 14 => case _ =>
    }
  }

  lemma ThirdShifts(j: nat)
    requires j < 16
    ensures SRow(2)[j] == SHIFTS[8 + j % 4]
  {
    match j {
      case 0 => case 1 => case 2 => case 3 => case 4 => case 5 => case 6 => case 7 =>
      case 8 => case 9 => case 10 => case 11 => case 12 => case 13 => case 14 => case _ =>
    }
  }

  lemma FourthShifts(j: nat)
    requires j < 16
    ensures SRow(3)[j] == SHIFTS[12 + j % 4]
  {
    match j {
      case 0 => case 1 => case 2 => case 3 => case 4 => case 5 => case 6 => case 7 =>
      case 8 => case 9 => case 10 => case 11 => case 12 => case 13 => case 14 => case _ =>
    }
  }

  lemma ShiftRow(round: nat, j: nat)
    requires round < 4 && j < 16
    ensures SRow(round)[j] == SHIFTS[round * 4 + j % 4]
  {
    match round {
      case 0 => FirstShifts(j);
      case 1 => SecondShifts(j);
      case 2 => ThirdShifts(j);
      case _ => FourthShifts(j);
    }
  }

  /** The computed shift is the printed column. */
  lemma ShiftColumn(n: nat)
    requires n < 64
    ensures SRow(n / 16)[n % 16] == SHIFTS[n / 16 * 4 + n % 4]
  {
    RoundOf(n);
    ShiftRow(n / 16, n % 16);
  }

  /** The value a turn of the loop computes for `b`. */
  function LoopValue(l: Regs, x: Block, n: nat): Word
    requires n < 64
  {
    Shifted(l.b, Sum(l.a, LoopF(n, l.b, l.c, l.d), TRow(n / 16)[n % 16], x[MessageIndex(n)]),
            SHIFTS[n / 16 * 4 + n % 4])
  }

  /** The registers themselves move; their names stay. */
  function Rotated(l: Regs, v: Word): Regs { Regs(l.d, v, l.b, l.c) }

  lemma RotatedIsAssigned(r: Regs, role: nat, v: Word)
    requires role < 4
    ensures Rotated(Roles(r, role), v) == Roles(Assign(r, role, v), if role == 3 then 0 else role + 1)
  {
  }

  /** The loop adds the constant before the message word. */
  lemma SumOrder(a: Word, f: Word, x: Word, t: Word)
    ensures Sum(a, f, t, x) == Sum(a, f, x, t)
  {
  }

  lemma LoopValueIsOperation(l: Regs, x: Block, n: nat)
    requires n < 64
    ensures LoopValue(l, x, n)
         == Operation(n / 16, l.a, l.b, l.c, l.d, x[KRow(n / 16)[n % 16]], SRow(n / 16)[n % 16], TRow(n / 16)[n % 16])
  {
    IndexColumn(n);
    ShiftColumn(n);
    LoopFIsAuxiliary(n, l.b, l.c, l.d);
    SumOrder(l.a, LoopF(n, l.b, l.c, l.d), x[MessageIndex(n)], TRow(n / 16)[n % 16]);
  }

  lemma LoopTurn(r: Regs, x: Block, n: nat)
    requires n < 64
    ensures Rotated(Roles(r, n % 4), LoopValue(Roles(r, n % 4), x, n)) == Roles(RfcStep(r, x, n), (n + 1) % 4)
  {
    LoopValueIsOperation(Roles(r, n % 4), x, n);
    NextRole(n);
    RotatedIsAssigned(r, n % 4, LoopValue(Roles(r, n % 4), x, n));
  }

  lemma NextRole(n: nat)
    ensures (n + 1) % 4 == if n % 4 == 3 then 0 else n % 4 + 1
  {
  }

  // ---------------------------------------------------------------- words and bytes

  function INIT(): Regs { Regs(0x6745_2301, 0xefcd_ab89, 0x98ba_dcfe, 0x1032_5476) }

  /** Four bytes of a word, the low-order one first. */
  function Joined(a: bv8, b: bv8, c: bv8, d: bv8): Word {
    (a as Word) | ((b as Word) << 8) | ((c as Word) << 16) | ((d as Word) << 24)
  }

  function WordOf(b: Bytes): Word
    requires |b| == 4
  {
    Joined(ToBits(b[0]), ToBits(b[1]), ToBits(b[2]), ToBits(b[3]))
  }

  function BytesOf(w: Word): (b: Bytes)
    ensures |b| == 4
  {
    [((w & 0xFF) as bv8) as int, (((w >> 8) & 0xFF) as bv8) as int,
     (((w >> 16) & 0xFF) as bv8) as int, (((w >> 24) & 0xFF) as bv8) as int]
  }

  ghost predicate Reads(p: bv8, q: bv8, r: bv8, s: bv8, a: int, b: int, c: int, d: int) {
    p as int == a && q as int == b && r as int == c && s as int == d
  }

  lemma JoinedSum(a: bv8, b: bv8, c: bv8, d: bv8, w: Word)
    requires w == (a as Word) | ((b as Word) << 8) | ((c as Word) << 16) | ((d as Word) << 24)
    ensures w as int == (a as int) + 0x100 * (b as int) + 0x1_0000 * (c as int) + 0x100_0000 * (d as int)
  {
  }

  lemma SumIs(w: Word, p: bv8, q: bv8, r: bv8, s: bv8, a: int, b: int, c: int, d: int)
    requires Reads(p, q, r, s, a, b, c, d)
    requires w as int == (p as int) + 0x100 * (q as int) + 0x1_0000 * (r as int) + 0x100_0000 * (s as int)
    ensures w as int == a + 0x100 * b + 0x1_0000 * c + 0x100_0000 * d
  {
  }

  lemma JoinedIs(w: Word, p: bv8, q: bv8, r: bv8, s: bv8, a: int, b: int, c: int, d: int)
    requires Reads(p, q, r, s, a, b, c, d)
    requires w == (p as Word) | ((q as Word) << 8) | ((r as Word) << 16) | ((s as Word) << 24)
    ensures w as int == a + 0x100 * b + 0x1_0000 * c + 0x100_0000 * d
  {
    JoinedSum(p, q, r, s, w);
    SumIs(w, p, q, r, s, a, b, c, d);
  }

  lemma WordOfBits(b: Bytes, p: bv8, q: bv8, r: bv8, s: bv8)
    requires |b| == 4 && p == ToBits(b[0]) && q == ToBits(b[1]) && r == ToBits(b[2]) && s == ToBits(b[3])
    requires Reads(p, q, r, s, b[0], b[1], b[2], b[3])
    ensures WordOf(b) as int
      == b[0] as int + 0x100 * (b[1] as int) + 0x1_0000 * (b[2] as int) + 0x100_0000 * (b[3] as int)
  {
    JoinedIs(WordOf(b), p, q, r, s, b[0], b[1], b[2], b[3]);
  }

  lemma BytesAre(w: Word, p: bv8, q: bv8, r: bv8, s: bv8, a: byte, b: byte, c: byte, d: byte)
    requires p == (w & 0xFF) as bv8 && q == ((w >> 8) & 0xFF) as bv8
    requires r == ((w >> 16) & 0xFF) as bv8 && s == ((w >> 24) & 0xFF) as bv8 && Reads(p, q, r, s, a, b, c, d)
    ensures BytesOf(w) == [a, b, c, d]
  {
  }

  lemma BytesOfBits(b: Bytes, p: bv8, q: bv8, r: bv8, s: bv8, w: Word)
    requires |b| == 4 && Reads(p, q, r, s, b[0], b[1], b[2], b[3])
    requires w == (p as Word) | ((q as Word) << 8) | ((r as Word) << 16) | ((s as Word) << 24)
    ensures BytesOf(w) == b
  {
    JoinedCut(p, q, r, s, w);
    BytesAre(w, p, q, r, s, b[0], b[1], b[2], b[3]);
    assert b == [b[0], b[1], b[2], b[3]];
  }

  lemma JoinedCut(a: bv8, b: bv8, c: bv8, d: bv8, w: Word)
    requires w == (a as Word) | ((b as Word) << 8) | ((c as Word) << 16) | ((d as Word) << 24)
    ensures (w & 0xFF) as bv8 == a && ((w >> 8) & 0xFF) as bv8 == b
    ensures ((w >> 16) & 0xFF) as bv8 == c && ((w >> 24) & 0xFF) as bv8 == d
  {
  }

  /** A word is the sum of its bytes times powers of 256, low-order byte first. */
  lemma WordOfIs(b: Bytes)
    requires |b| == 4
    ensures WordOf(b) as int
      == b[0] as int + 0x100 * (b[1] as int) + 0x1_0000 * (b[2] as int) + 0x100_0000 * (b[3] as int)
  {
    ToBitsIs(b[0]);
    ToBitsIs(b[1]);
    ToBitsIs(b[2]);
    ToBitsIs(b[3]);
    WordOfBits(b, ToBits(b[0]), ToBits(b[1]), ToBits(b[2]), ToBits(b[3]));
  }

  /** Writing a word out gives the bytes back that it was read from. */
  lemma BytesOfWord(b: Bytes)
    requires |b| == 4
    ensures BytesOf(WordOf(b)) == b
  {
    ToBitsIs(b[0]);
    ToBitsIs(b[1]);
    ToBitsIs(b[2]);
    ToBitsIs(b[3]);
    BitsWritten(b, ToBits(b[0]), ToBits(b[1]), ToBits(b[2]), ToBits(b[3]));
  }

  lemma BitsWritten(b: Bytes, p: bv8, q: bv8, r: bv8, s: bv8)
    requires |b| == 4 && p == ToBits(b[0]) && q == ToBits(b[1]) && r == ToBits(b[2]) && s == ToBits(b[3])
    requires Reads(p, q, r, s, b[0], b[1], b[2], b[3])
    ensures BytesOf(WordOf(b)) == b
  {
    BytesOfBits(b, p, q, r, s, Joined(p, q, r, s));
  }

  lemma CutJoined(w: Word, a: bv8, b: bv8, c: bv8, d: bv8)
    requires a == (w & 0xFF) as bv8 && b == ((w >> 8) & 0xFF) as bv8
    requires c == ((w >> 16) & 0xFF) as bv8 && d == ((w >> 24) & 0xFF) as bv8
    ensures w == (a as Word) | ((b as Word) << 8) | ((c as Word) << 16) | ((d as Word) << 24)
  {
  }

  lemma WordOfBytes(w: Word)
    ensures WordOf(BytesOf(w)) == w
  {
    var a, b := (w & 0xFF) as bv8, ((w >> 8) & 0xFF) as bv8;
    var c, d := ((w >> 16) & 0xFF) as bv8, ((w >> 24) & 0xFF) as bv8;
    ToBitsBack(a);
    ToBitsBack(b);
    ToBitsBack(c);
    ToBitsBack(d);
    CutJoined(w, a, b, c, d);
    assert BytesOf(w) == [a as int, b as int, c as int, d as int];
  }

  function WordsOf(b: Bytes): Block
    requires |b| == 64
  {
    seq(16, i requires 0 <= i < 16 => WordOf(b[4 * i..4 * i + 4]))
  }

  function Output(r: Regs): (b: Bytes)
    ensures |b| == 16
  {
    BytesOf(r.a) + BytesOf(r.b) + BytesOf(r.c) + BytesOf(r.d)
  }

  /** The compression function on the bytes of one block. */
  function CompressBlock(r: Regs, block: Bytes): Regs {
    if |block| == 64 then Compress(r, WordsOf(block)) else r
  }

  // ---------------------------------------------------------------- process_block

  method DecodeWords(block: Bytes) returns (m: seq<Word>)
    requires |block| == 64
    ensures m == WordsOf(block)
  {
    m := [];
    for i := 0 to 16
      invariant |m| == i && forall k :: 0 <= k < i ==> m[k] == WordsOf(block)[k]
    {
      m := m + [WordOf(block[4 * i..4 * i + 4])];
    }
  }

  lemma LoopInvariant(state: Regs, m: Block, n: nat, l: Regs)
    requires n < 64 && l == Roles(RfcSteps(state, m, n), n % 4)
    ensures Rotated(l, LoopValue(l, m, n)) == Roles(RfcSteps(state, m, n + 1), (n + 1) % 4)
  {
    LoopTurn(RfcSteps(state, m, n), m, n);
  }

  /** The 64-turn loop of `process_block` computes the four rounds. */
  method RunRounds(state: Regs, m: Block, steps: nat) returns (l: Regs)
    requires steps <= 64 && steps % 4 == 0
    ensures l == RfcSteps(state, m, steps)
  {
    l := state;
    for n := 0 to steps
      invariant l == Roles(RfcSteps(state, m, n), n % 4)
    {
      LoopInvariant(state, m, n, l);
      var v := LoopValue(l, m, n);
      l := Rotated(l, v);
    }
  }

  /** `process_block`. */
  method ProcessBlock(state: Regs, block: Bytes) returns (r: Regs)
    requires |block| == 64
    ensures r == CompressBlock(state, block)
  {
    var m := DecodeWords(block);
    var l := RunRounds(state, m, 4 * |m|);
    r := Increment(state, l);
  }
}
