/**
 The sine table of ExtLibs/FFT/fft.c:44-141. The 768 entries are one quarter wave, repeated with
 reflection and sign: entry 512-j equals entry j, and entry 512+j is its negative.
 */
module Sinewave {

  /** A C short. */
  type Short = x: int | -0x8000 <= x < 0x8000

  /** Selects one of eight table entries. */
  function Of8(c: int, a0: Short, a1: Short, a2: Short, a3: Short, a4: Short, a5: Short, a6: Short, a7: Short): Short {
    if c < 4 then
      if c < 2 then if c < 1 then a0 else a1 else if c < 3 then a2 else a3
    else
      if c < 6 then if c < 5 then a4 else a5 else if c < 7 then a6 else a7
  }

  /** fft.c:45-77: the first quarter wave of Sinewave, entries 0 to 256. */
  function Quarter(j: nat): Short {
    if j >= 256 then
      32767
    else
      if j < 128 then
        if j < 64 then
          if j < 32 then
            if j < 16 then
              if j < 8 then
                Of8(j, 0, 201, 402, 603, 804, 1005, 1206, 1406)
              else
                Of8(j - 8, 1607, 1808, 2009, 2209, 2410, 2610, 2811, 3011)
            else
              if j < 24 then
                Of8(j - 16, 3211, 3411, 3611, 3811, 4011, 4210, 4409, 4608)
              else
                Of8(j - 24, 4807, 5006, 5205, 5403, 5601, 5799, 5997, 6195)
          else
            if j < 48 then
              if j < 40 then
                Of8(j - 32, 6392, 6589, 6786, 6982, 7179, 7375, 7571, 7766)
              else
                Of8(j - 40, 7961, 8156, 8351, 8545, 8739, 8932, 9126, 9319)
            else
              if j < 56 then
                Of8(j - 48, 9511, 9703, 9895, 10087, 10278, 10469, 10659, 10849)
              else
                Of8(j - 56, 11038, 11227, 11416, 11604, 11792, 11980, 12166, 12353)
        else
          if j < 96 then
            if j < 80 then
              if j < 72 then
                Of8(j - 64, 12539, 12724, 12909, 13094, 13278, 13462, 13645, 13827)
              else
                Of8(j - 72, 14009, 14191, 14372, 14552, 14732, 14911, 15090, 15268)
            else
              if j < 88 then
                Of8(j - 80, 15446, 15623, 15799, 15975, 16150, 16325, 16499, 16672)
              else
                Of8(j - 88, 16845, 17017, 17189, 17360, 17530, 17699, 17868, 18036)
          else
            if j < 112 then
              if j < 104 then
                Of8(j - 96, 18204, 18371, 18537, 18702, 18867, 19031, 19194, 19357)
              else
                Of8(j - 104, 19519, 19680, 19840, 20000, 20159, 20317, 20474, 20631)
            else
              if j < 120 then
                Of8(j - 112, 20787, 20942, 21096, 21249, 21402, 21554, 21705, 21855)
              else
                Of8(j - 120, 22004, 22153, 22301, 22448, 22594, 22739, 22883, 23027)
      else
        if j < 192 then
          if j < 160 then
            if j < 144 then
              if j < 136 then
                Of8(j - 128, 23169, 23311, 23452, 23592, 23731, 23869, 24006, 24143)
              else
                Of8(j - 136, 24278, 24413, 24546, 24679, 24811, 24942, 25072, 25201)
            else
              if j < 152 then
                Of8(j - 144, 25329, 25456, 25582, 25707, 25831, 25954, 26077, 26198)
              else
                Of8(j - 152, 26318, 26437, 26556, 26673, 26789, 26905, 27019, 27132)
          else
            if j < 176 then
              if j < 168 then
                Of8(j - 160, 27244, 27355, 27466, 27575, 27683, 27790, 27896, 28001)
              else
                Of8(j - 168, 28105, 28208, 28309, 28410, 28510, 28608, 28706, 28802)
            else
              if j < 184 then
                Of8(j - 176, 28897, 28992, 29085, 29177, 29268, 29358, 29446, 29534)
              else
                Of8(j - 184, 29621, 29706, 29790, 29873, 29955, 30036, 30116, 30195)
        else
          if j < 224 then
            if j < 208 then
              if j < 200 then
                Of8(j - 192, 30272, 30349, 30424, 30498, 30571, 30643, 30713, 30783)
              else
                Of8(j - 200, 30851, 30918, 30984, 31049, 31113, 31175, 31236, 31297)
            else
              if j < 216 then
                Of8(j - 208, 31356, 31413, 31470, 31525, 31580, 31633, 31684, 31735)
              else
                Of8(j - 216, 31785, 31833, 31880, 31926, 31970, 32014, 32056, 32097)
          else
            if j < 240 then
              if j < 232 then
                Of8(j - 224, 32137, 32176, 32213, 32249, 32284, 32318, 32350, 32382)
              else
                Of8(j - 232, 32412, 32441, 32468, 32495, 32520, 32544, 32567, 32588)
            else
              if j < 248 then
                Of8(j - 240, 32609, 32628, 32646, 32662, 32678, 32692, 32705, 32717)
              else
                Of8(j - 248, 32727, 32736, 32744, 32751, 32757, 32761, 32764, 32766)
  }

  /** Sinewave[j]. */
  function Sine(j: nat): Short {
    if j <= 256 then Quarter(j)
    else if j <= 512 then Quarter(512 - j)
    else QuarterRange(j - 512); -Quarter(j - 512)
  }

  lemma QuarterRange(j: nat)
    ensures 0 <= Quarter(j) <= 32767
  {
  }

  lemma LowPairs(j: nat)
    requires j < 64
    ensures Quarter(j) * Quarter(j) + Quarter(256 - j) * Quarter(256 - j) <= 32767 * 32767
  {
  }

  lemma MidPairs(j: nat)
    requires 64 <= j <= 128
    ensures Quarter(j) * Quarter(j) + Quarter(256 - j) * Quarter(256 - j) <= 32767 * 32767
  {
  }

  lemma QuarterPairs(j: nat)
    requires j <= 256
    ensures Quarter(j) * Quarter(j) + Quarter(256 - j) * Quarter(256 - j) <= 32767 * 32767
  {
    var i := if j <= 128 then j else 256 - j;
    if i < 64 {
      LowPairs(i);
    } else {
      MidPairs(i);
    }
  }

  /** Sine and cosine at the same angle lie on or inside the circle of radius 32767. */
  lemma TwiddlePairs(j: nat)
    requires j < 512
    ensures Sine(j + 256) * Sine(j + 256) + Sine(j) * Sine(j) <= 32767 * 32767
  {
    var i := if j <= 256 then j else j - 256;
    var (c, d) := (Sine(j + 256), Sine(j));
    QuarterPairs(i);
    Angles(j, i, c, d);
    if j > 256 {
      SquareNeg(Quarter(i), c);
    }
  }

  lemma Angles(j: nat, i: nat, c: int, d: int)
    requires j < 512 && i == (if j <= 256 then j else j - 256) && c == Sine(j + 256) && d == Sine(j)
    ensures j <= 256 ==> c == Quarter(256 - i) && d == Quarter(i)
    ensures j > 256 ==> c == -Quarter(i) && d == Quarter(256 - i)
  {
  }

  lemma SquareNeg(x: int, y: int)
    requires y == -x
    ensures y * y == x * x
  {
  }
}
