/** The static Huffman table of h2pp and the proof that it is a valid prefix code. */
module HuffmanTable {
  import opened Words
  import opened Bits
  import opened Huffman

  /** The code of each octet, sixteen symbols to a row, and of EOS. */
  function CodeOf(symbol: nat): (c: Code)
    requires symbol < 257
    ensures 5 <= c.len <= 30
  {
    if symbol < 128 then LowRow(symbol / 16)[symbol % 16]
    else if symbol < 256 then HighRow(symbol / 16 - 8)[symbol % 16]
    else Code(0xfffffffc, 30)
  }

  function LowRow(r: nat): (row: seq<Code>)
    requires r < 8
    ensures |row| == 16 && forall i :: 0 <= i < 16 ==> 5 <= row[i].len <= 30
  {
    if r < 4 then FirstRows(r) else SecondRows(r - 4)
  }

  function FirstRows(r: nat): (row: seq<Code>)
    requires r < 4
    ensures |row| == 16 && forall i :: 0 <= i < 16 ==> 5 <= row[i].len <= 30
  {
    match r
    case 0 =>
      [Code(0xffc00000, 13), Code(0xffffb000, 23), Code(0xfffffe20, 28), Code(0xfffffe30, 28),
       Code(0xfffffe40, 28), Code(0xfffffe50, 28), Code(0xfffffe60, 28), Code(0xfffffe70, 28),
       Code(0xfffffe80, 28), Code(0xffffea00, 24), Code(0xfffffff0, 30), Code(0xfffffe90, 28),
       Code(0xfffffea0, 28), Code(0xfffffff4, 30), Code(0xfffffeb0, 28), Code(0xfffffec0, 28)]
    case 1 =>
      [Code(0xfffffed0, 28), Code(0xfffffee0, 28), Code(0xfffffef0, 28), Code(0xffffff00, 28),
       Code(0xffffff10, 28), Code(0xffffff20, 28), Code(0xfffffff8, 30), Code(0xffffff30, 28),
       Code(0xffffff40, 28), Code(0xffffff50, 28), Code(0xffffff60, 28), Code(0xffffff70, 28),
       Code(0xffffff80, 28), Code(0xffffff90, 28), Code(0xffffffa0, 28), Code(0xffffffb0, 28)]
    case 2 =>
      [Code(0x50000000, 6), Code(0xfe000000, 10), Code(0xfe400000, 10), Code(0xffa00000, 12),
       Code(0xffc80000, 13), Code(0x54000000, 6), Code(0xf8000000, 8), Code(0xff400000, 11),
       Code(0xfe800000, 10), Code(0xfec00000, 10), Code(0xf9000000, 8), Code(0xff600000, 11),
       Code(0xfa000000, 8), Code(0x58000000, 6), Code(0x5c000000, 6), Code(0x60000000, 6)]
    case _ =>
      [Code(0x00000000, 5), Code(0x08000000, 5), Code(0x10000000, 5), Code(0x64000000, 6),
       Code(0x68000000, 6), Code(0x6c000000, 6), Code(0x70000000, 6), Code(0x74000000, 6),
       Code(0x78000000, 6), Code(0x7c000000, 6), Code(0xb8000000, 7), Code(0xfb000000, 8),
       Code(0xfff80000, 15), Code(0x80000000, 6), Code(0xffb00000, 12), Code(0xff000000, 10)]
  }

  function SecondRows(r: nat): (row: seq<Code>)
    requires r < 4
    ensures |row| == 16 && forall i :: 0 <= i < 16 ==> 5 <= row[i].len <= 30
  {
    match r
    case 0 =>
      [Code(0xffd00000, 13), Code(0x84000000, 6), Code(0xba000000, 7), Code(0xbc000000, 7),
       Code(0xbe000000, 7), Code(0xc0000000, 7), Code(0xc2000000, 7), Code(0xc4000000, 7),
       Code(0xc6000000, 7), Code(0xc8000000, 7), Code(0xca000000, 7), Code(0xcc000000, 7),
       Code(0xce000000, 7), Code(0xd0000000, 7), Code(0xd2000000, 7), Code(0xd4000000, 7)]
    case 1 =>
      [Code(0xd6000000, 7), Code(0xd8000000, 7), Code(0xda000000, 7), Code(0xdc000000, 7),
       Code(0xde000000, 7), Code(0xe0000000, 7), Code(0xe2000000, 7), Code(0xe4000000, 7),
       Code(0xfc000000, 8), Code(0xe6000000, 7), Code(0xfd000000, 8), Code(0xffd80000, 13),
       Code(0xfffe0000, 19), Code(0xffe00000, 13), Code(0xfff00000, 14), Code(0x88000000, 6)]
    case 2 =>
      [Code(0xfffa0000, 15), Code(0x18000000, 5), Code(0x8c000000, 6), Code(0x20000000, 5),
       Code(0x90000000, 6), Code(0x28000000, 5), Code(0x94000000, 6), Code(0x98000000, 6),
       Code(0x9c000000, 6), Code(0x30000000, 5), Code(0xe8000000, 7), Code(0xea000000, 7),
       Code(0xa0000000, 6), Code(0xa4000000, 6), Code(0xa8000000, 6), Code(0x38000000, 5)]
    case _ =>
      [Code(0xac000000, 6), Code(0xec000000, 7), Code(0xb0000000, 6), Code(0x40000000, 5),
       Code(0x48000000, 5), Code(0xb4000000, 6), Code(0xee000000, 7), Code(0xf0000000, 7),
       Code(0xf2000000, 7), Code(0xf4000000, 7), Code(0xf6000000, 7), Code(0xfffc0000, 15),
       Code(0xff800000, 11), Code(0xfff40000, 14), Code(0xffe80000, 13), Code(0xffffffc0, 28)]
  }

  function HighRow(r: nat): (row: seq<Code>)
    requires r < 8
    ensures |row| == 16 && forall i :: 0 <= i < 16 ==> 5 <= row[i].len <= 30
  {
    if r < 4 then ThirdRows(r) else FourthRows(r - 4)
  }

  function ThirdRows(r: nat): (row: seq<Code>)
    requires r < 4
    ensures |row| == 16 && forall i :: 0 <= i < 16 ==> 5 <= row[i].len <= 30
  {
    match r
    case 0 =>
      [Code(0xfffe6000, 20), Code(0xffff4800, 22), Code(0xfffe7000, 20), Code(0xfffe8000, 20),
       Code(0xffff4c00, 22), Code(0xffff5000, 22), Code(0xffff5400, 22), Code(0xffffb200, 23),
       Code(0xffff5800, 22), Code(0xffffb400, 23), Code(0xffffb600, 23), Code(0xffffb800, 23),
       Code(0xffffba00, 23), Code(0xffffbc00, 23), Code(0xffffeb00, 24), Code(0xffffbe00, 23)]
    case 1 =>
      [Code(0xffffec00, 24), Code(0xffffed00, 24), Code(0xffff5c00, 22), Code(0xffffc000, 23),
       Code(0xffffee00, 24), Code(0xffffc200, 23), Code(0xffffc400, 23), Code(0xffffc600, 23),
       Code(0xffffc800, 23), Code(0xfffee000, 21), Code(0xffff6000, 22), Code(0xffffca00, 23),
       Code(0xffff6400, 22), Code(0xffffcc00, 23), Code(0xffffce00, 23), Code(0xffffef00, 24)]
    case 2 =>
      [Code(0xffff6800, 22), Code(0xfffee800, 21), Code(0xfffe9000, 20), Code(0xffff6c00, 22),
       Code(0xffff7000, 22), Code(0xffffd000, 23), Code(0xffffd200, 23), Code(0xfffef000, 21),
       Code(0xffffd400, 23), Code(0xffff7400, 22), Code(0xffff7800, 22), Code(0xfffff000, 24),
       Code(0xfffef800, 21), Code(0xffff7c00, 22), Code(0xffffd600, 23), Code(0xffffd800, 23)]
    case _ =>
      [Code(0xffff0000, 21), Code(0xffff0800, 21), Code(0xffff8000, 22), Code(0xffff1000, 21),
       Code(0xffffda00, 23), Code(0xffff8400, 22), Code(0xffffdc00, 23), Code(0xffffde00, 23),
       Code(0xfffea000, 20), Code(0xffff8800, 22), Code(0xffff8c00, 22), Code(0xffff9000, 22),
       Code(0xffffe000, 23), Code(0xffff9400, 22), Code(0xffff9800, 22), Code(0xffffe200, 23)]
  }

  function FourthRows(r: nat): (row: seq<Code>)
    requires r < 4
    ensures |row| == 16 && forall i :: 0 <= i < 16 ==> 5 <= row[i].len <= 30
  {
    match r
    case 0 =>
      [Code(0xfffff800, 26), Code(0xfffff840, 26), Code(0xfffeb000, 20), Code(0xfffe2000, 19),
       Code(0xffff9c00, 22), Code(0xffffe400, 23), Code(0xffffa000, 22), Code(0xfffff600, 25),
       Code(0xfffff880, 26), Code(0xfffff8c0, 26), Code(0xfffff900, 26), Code(0xfffffbc0, 27),
       Code(0xfffffbe0, 27), Code(0xfffff940, 26), Code(0xfffff100, 24), Code(0xfffff680, 25)]
    case 1 =>
      [Code(0xfffe4000, 19), Code(0xffff1800, 21), Code(0xfffff980, 26), Code(0xfffffc00, 27),
       Code(0xfffffc20, 27), Code(0xfffff9c0, 26), Code(0xfffffc40, 27), Code(0xfffff200, 24),
       Code(0xffff2000, 21), Code(0xffff2800, 21), Code(0xfffffa00, 26), Code(0xfffffa40, 26),
       Code(0xffffffd0, 28), Code(0xfffffc60, 27), Code(0xfffffc80, 27), Code(0xfffffca0, 27)]
    case 2 =>
      [Code(0xfffec000, 20), Code(0xfffff300, 24), Code(0xfffed000, 20), Code(0xffff3000, 21),
       Code(0xffffa400, 22), Code(0xffff3800, 21), Code(0xffff4000, 21), Code(0xffffe600, 23),
       Code(0xffffa800, 22), Code(0xffffac00, 22), Code(0xfffff700, 25), Code(0xfffff780, 25),
       Code(0xfffff400, 24), Code(0xfffff500, 24), Code(0xfffffa80, 26), Code(0xffffe800, 23)]
    case _ =>
      [Code(0xfffffac0, 26), Code(0xfffffcc0, 27), Code(0xfffffb00, 26), Code(0xfffffb40, 26),
       Code(0xfffffce0, 27), Code(0xfffffd00, 27), Code(0xfffffd20, 27), Code(0xfffffd40, 27),
       Code(0xfffffd60, 27), Code(0xffffffe0, 28), Code(0xfffffd80, 27), Code(0xfffffda0, 27),
       Code(0xfffffdc0, 27), Code(0xfffffde0, 27), Code(0xfffffe00, 27), Code(0xfffffb80, 26)]
  }

  const HUFFMAN_TABLE: seq<Code> := seq(257, i requires 0 <= i < 257 => CodeOf(i))

  // ---------------------------------------------------------------- the code space

  /** The number of 32-bit words that begin with a code of this length. */
  function Width(len: nat): nat {
    match len
    case 5 => 0x8000000
    case 6 => 0x4000000
    case 7 => 0x2000000
    case 8 => 0x1000000
    case 10 => 0x400000
    case 11 => 0x200000
    case 12 => 0x100000
    case 13 => 0x80000
    case 14 => 0x40000
    case 15 => 0x20000
    case 19 => 0x2000
    case 20 => 0x1000
    case 21 => 0x800
    case 22 => 0x400
    case 23 => 0x200
    case 24 => 0x100
    case 25 => 0x80
    case 26 => 0x40
    case 27 => 0x20
    case 28 => 0x10
    case 30 => 0x4
    case _ => 0
  }

  /** The symbol whose code begins a 32-bit word: the codes of one length fill one stretch of words. */
  function Locate(word: nat): nat {
    if word < 0x50000000 then Locate5(word)
    else if word < 0xb8000000 then Locate6(word)
    else if word < 0xf8000000 then Locate7(word)
    else if word < 0xfe000000 then Locate8(word)
    else if word < 0xff400000 then Locate10(word)
    else if word < 0xffa00000 then Locate11(word)
    else if word < 0xffc00000 then Locate12(word)
    else if word < 0xfff00000 then Locate13(word)
    else if word < 0xfff80000 then Locate14(word)
    else if word < 0xfffe0000 then Locate15(word)
    else if word < 0xfffe6000 then Locate19(word)
    else if word < 0xfffee000 then Locate20(word)
    else if word < 0xffff4800 then Locate21(word)
    else if word < 0xffffb000 then Locate22(word)
    else if word < 0xffffea00 then Locate23(word)
    else if word < 0xfffff600 then Locate24(word)
    else if word < 0xfffff800 then Locate25(word)
    else if word < 0xfffffbc0 then Locate26(word)
    else if word < 0xfffffe20 then Locate27(word)
    else if word < 0xfffffff0 then Locate28(word)
    else Locate30(word)
  }

  function Locate5(word: nat): nat {
    if word < 0x08000000 then 48 else if word < 0x10000000 then 49 else if word < 0x18000000 then 50 else
    if word < 0x20000000 then 97 else if word < 0x28000000 then 99 else if word < 0x30000000 then 101 else
    if word < 0x38000000 then 105 else if word < 0x40000000 then 111 else if word < 0x48000000 then 115 else
    116
  }

  function Locate6(word: nat): nat {
    if word < 0x54000000 then 32 else if word < 0x58000000 then 37 else if word < 0x5c000000 then 45 else
    if word < 0x60000000 then 46 else if word < 0x64000000 then 47 else if word < 0x68000000 then 51 else
    if word < 0x6c000000 then 52 else if word < 0x70000000 then 53 else if word < 0x74000000 then 54 else
    if word < 0x78000000 then 55 else if word < 0x7c000000 then 56 else if word < 0x80000000 then 57 else
    if word < 0x84000000 then 61 else if word < 0x88000000 then 65 else if word < 0x8c000000 then 95 else
    if word < 0x90000000 then 98 else if word < 0x94000000 then 100 else if word < 0x98000000 then 102 else
    if word < 0x9c000000 then 103 else if word < 0xa0000000 then 104 else if word < 0xa4000000 then 108 else
    if word < 0xa8000000 then 109 else if word < 0xac000000 then 110 else if word < 0xb0000000 then 112 else
    if word < 0xb4000000 then 114 else
    117
  }

  function Locate7(word: nat): nat {
    if word < 0xba000000 then 58 else if word < 0xbc000000 then 66 else if word < 0xbe000000 then 67 else
    if word < 0xc0000000 then 68 else if word < 0xc2000000 then 69 else if word < 0xc4000000 then 70 else
    if word < 0xc6000000 then 71 else if word < 0xc8000000 then 72 else if word < 0xca000000 then 73 else
    if word < 0xcc000000 then 74 else if word < 0xce000000 then 75 else if word < 0xd0000000 then 76 else
    if word < 0xd2000000 then 77 else if word < 0xd4000000 then 78 else if word < 0xd6000000 then 79 else
    if word < 0xd8000000 then 80 else if word < 0xda000000 then 81 else if word < 0xdc000000 then 82 else
    if word < 0xde000000 then 83 else if word < 0xe0000000 then 84 else if word < 0xe2000000 then 85 else
    if word < 0xe4000000 then 86 else if word < 0xe6000000 then 87 else if word < 0xe8000000 then 89 else
    if word < 0xea000000 then 106 else if word < 0xec000000 then 107 else if word < 0xee000000 then 113 else
    if word < 0xf0000000 then 118 else if word < 0xf2000000 then 119 else if word < 0xf4000000 then 120 else
    if word < 0xf6000000 then 121 else
    122
  }

  function Locate8(word: nat): nat {
    if word < 0xf9000000 then 38 else if word < 0xfa000000 then 42 else if word < 0xfb000000 then 44 else
    if word < 0xfc000000 then 59 else if word < 0xfd000000 then 88 else
    90
  }

  function Locate10(word: nat): nat {
    if word < 0xfe400000 then 33 else if word < 0xfe800000 then 34 else if word < 0xfec00000 then 40 else
    if word < 0xff000000 then 41 else
    63
  }

  function Locate11(word: nat): nat {
    if word < 0xff600000 then 39 else if word < 0xff800000 then 43 else
    124
  }

  function Locate12(word: nat): nat {
    if word < 0xffb00000 then 35 else
    62
  }

  function Locate13(word: nat): nat {
    if word < 0xffc80000 then 0 else if word < 0xffd00000 then 36 else if word < 0xffd80000 then 64 else
    if word < 0xffe00000 then 91 else if word < 0xffe80000 then 93 else
    126
  }

  function Locate14(word: nat): nat {
    if word < 0xfff40000 then 94 else
    125
  }

  function Locate15(word: nat): nat {
    if word < 0xfffa0000 then 60 else if word < 0xfffc0000 then 96 else
    123
  }

  function Locate19(word: nat): nat {
    if word < 0xfffe2000 then 92 else if word < 0xfffe4000 then 195 else
    208
  }

  function Locate20(word: nat): nat {
    if word < 0xfffe7000 then 128 else if word < 0xfffe8000 then 130 else if word < 0xfffe9000 then 131 else
    if word < 0xfffea000 then 162 else if word < 0xfffeb000 then 184 else if word < 0xfffec000 then 194 else
    if word < 0xfffed000 then 224 else
    226
  }

  function Locate21(word: nat): nat {
    if word < 0xfffee800 then 153 else if word < 0xfffef000 then 161 else if word < 0xfffef800 then 167 else
    if word < 0xffff0000 then 172 else if word < 0xffff0800 then 176 else if word < 0xffff1000 then 177 else
    if word < 0xffff1800 then 179 else if word < 0xffff2000 then 209 else if word < 0xffff2800 then 216 else
    if word < 0xffff3000 then 217 else if word < 0xffff3800 then 227 else if word < 0xffff4000 then 229 else
    230
  }

  function Locate22(word: nat): nat {
    if word < 0xffff4c00 then 129 else if word < 0xffff5000 then 132 else if word < 0xffff5400 then 133 else
    if word < 0xffff5800 then 134 else if word < 0xffff5c00 then 136 else if word < 0xffff6000 then 146 else
    if word < 0xffff6400 then 154 else if word < 0xffff6800 then 156 else if word < 0xffff6c00 then 160 else
    if word < 0xffff7000 then 163 else if word < 0xffff7400 then 164 else if word < 0xffff7800 then 169 else
    if word < 0xffff7c00 then 170 else if word < 0xffff8000 then 173 else if word < 0xffff8400 then 178 else
    if word < 0xffff8800 then 181 else if word < 0xffff8c00 then 185 else if word < 0xffff9000 then 186 else
    if word < 0xffff9400 then 187 else if word < 0xffff9800 then 189 else if word < 0xffff9c00 then 190 else
    if word < 0xffffa000 then 196 else if word < 0xffffa400 then 198 else if word < 0xffffa800 then 228 else
    if word < 0xffffac00 then 232 else
    233
  }

  function Locate23(word: nat): nat {
    if word < 0xffffb200 then 1 else if word < 0xffffb400 then 135 else if word < 0xffffb600 then 137 else
    if word < 0xffffb800 then 138 else if word < 0xffffba00 then 139 else if word < 0xffffbc00 then 140 else
    if word < 0xffffbe00 then 141 else if word < 0xffffc000 then 143 else if word < 0xffffc200 then 147 else
    if word < 0xffffc400 then 149 else if word < 0xffffc600 then 150 else if word < 0xffffc800 then 151 else
    if word < 0xffffca00 then 152 else if word < 0xffffcc00 then 155 else if word < 0xffffce00 then 157 else
    if word < 0xffffd000 then 158 else if word < 0xffffd200 then 165 else if word < 0xffffd400 then 166 else
    if word < 0xffffd600 then 168 else if word < 0xffffd800 then 174 else if word < 0xffffda00 then 175 else
    if word < 0xffffdc00 then 180 else if word < 0xffffde00 then 182 else if word < 0xffffe000 then 183 else
    if word < 0xffffe200 then 188 else if word < 0xffffe400 then 191 else if word < 0xffffe600 then 197 else
    if word < 0xffffe800 then 231 else
    239
  }

  function Locate24(word: nat): nat {
    if word < 0xffffeb00 then 9 else if word < 0xffffec00 then 142 else if word < 0xffffed00 then 144 else
    if word < 0xffffee00 then 145 else if word < 0xffffef00 then 148 else if word < 0xfffff000 then 159 else
    if word < 0xfffff100 then 171 else if word < 0xfffff200 then 206 else if word < 0xfffff300 then 215 else
    if word < 0xfffff400 then 225 else if word < 0xfffff500 then 236 else
    237
  }

  function Locate25(word: nat): nat {
    if word < 0xfffff680 then 199 else if word < 0xfffff700 then 207 else if word < 0xfffff780 then 234 else
    235
  }

  function Locate26(word: nat): nat {
    if word < 0xfffff840 then 192 else if word < 0xfffff880 then 193 else if word < 0xfffff8c0 then 200 else
    if word < 0xfffff900 then 201 else if word < 0xfffff940 then 202 else if word < 0xfffff980 then 205 else
    if word < 0xfffff9c0 then 210 else if word < 0xfffffa00 then 213 else if word < 0xfffffa40 then 218 else
    if word < 0xfffffa80 then 219 else if word < 0xfffffac0 then 238 else if word < 0xfffffb00 then 240 else
    if word < 0xfffffb40 then 242 else if word < 0xfffffb80 then 243 else
    255
  }

  function Locate27(word: nat): nat {
    if word < 0xfffffbe0 then 203 else if word < 0xfffffc00 then 204 else if word < 0xfffffc20 then 211 else
    if word < 0xfffffc40 then 212 else if word < 0xfffffc60 then 214 else if word < 0xfffffc80 then 221 else
    if word < 0xfffffca0 then 222 else if word < 0xfffffcc0 then 223 else if word < 0xfffffce0 then 241 else
    if word < 0xfffffd00 then 244 else if word < 0xfffffd20 then 245 else if word < 0xfffffd40 then 246 else
    if word < 0xfffffd60 then 247 else if word < 0xfffffd80 then 248 else if word < 0xfffffda0 then 250 else
    if word < 0xfffffdc0 then 251 else if word < 0xfffffde0 then 252 else if word < 0xfffffe00 then 253 else
    254
  }

  function Locate28(word: nat): nat {
    if word < 0xfffffe30 then 2 else if word < 0xfffffe40 then 3 else if word < 0xfffffe50 then 4 else
    if word < 0xfffffe60 then 5 else if word < 0xfffffe70 then 6 else if word < 0xfffffe80 then 7 else
    if word < 0xfffffe90 then 8 else if word < 0xfffffea0 then 11 else if word < 0xfffffeb0 then 12 else
    if word < 0xfffffec0 then 14 else if word < 0xfffffed0 then 15 else if word < 0xfffffee0 then 16 else
    if word < 0xfffffef0 then 17 else if word < 0xffffff00 then 18 else if word < 0xffffff10 then 19 else
    if word < 0xffffff20 then 20 else if word < 0xffffff30 then 21 else if word < 0xffffff40 then 23 else
    if word < 0xffffff50 then 24 else if word < 0xffffff60 then 25 else if word < 0xffffff70 then 26 else
    if word < 0xffffff80 then 27 else if word < 0xffffff90 then 28 else if word < 0xffffffa0 then 29 else
    if word < 0xffffffb0 then 30 else if word < 0xffffffc0 then 31 else if word < 0xffffffd0 then 127 else
    if word < 0xffffffe0 then 220 else
    249
  }

  function Locate30(word: nat): nat {
    if word < 0xfffffff4 then 10 else if word < 0xfffffff8 then 13 else if word < 0xfffffffc then 22 else
    256
  }

  ghost predicate Owns(c: Code, word: nat) {
    c.bits <= word < c.bits + Width(c.len)
  }

  /** The code has one of the lengths, is aligned to its width, and is not all ones when short. */
  predicate Shaped(c: Code) {
    match c.len
    case 5 => c.bits % 0x8000000 == 0 && c.bits < 0xf8000000
    case 6 => c.bits % 0x4000000 == 0 && c.bits < 0xf8000000
    case 7 => c.bits % 0x2000000 == 0 && c.bits < 0xf8000000
    case 8 => c.bits % 0x1000000 == 0 && c.bits <= 0xff000000
    case 10 => c.bits % 0x400000 == 0 && c.bits <= 0xffc00000
    case 11 => c.bits % 0x200000 == 0 && c.bits <= 0xffe00000
    case 12 => c.bits % 0x100000 == 0 && c.bits <= 0xfff00000
    case 13 => c.bits % 0x80000 == 0 && c.bits <= 0xfff80000
    case 14 => c.bits % 0x40000 == 0 && c.bits <= 0xfffc0000
    case 15 => c.bits % 0x20000 == 0 && c.bits <= 0xfffe0000
    case 19 => c.bits % 0x2000 == 0 && c.bits <= 0xffffe000
    case 20 => c.bits % 0x1000 == 0 && c.bits <= 0xfffff000
    case 21 => c.bits % 0x800 == 0 && c.bits <= 0xfffff800
    case 22 => c.bits % 0x400 == 0 && c.bits <= 0xfffffc00
    case 23 => c.bits % 0x200 == 0 && c.bits <= 0xfffffe00
    case 24 => c.bits % 0x100 == 0 && c.bits <= 0xffffff00
    case 25 => c.bits % 0x80 == 0 && c.bits <= 0xffffff80
    case 26 => c.bits % 0x40 == 0 && c.bits <= 0xffffffc0
    case 27 => c.bits % 0x20 == 0 && c.bits <= 0xffffffe0
    case 28 => c.bits % 0x10 == 0 && c.bits <= 0xfffffff0
    case 30 => c.bits % 0x4 == 0 && c.bits <= 0xfffffffc
    case _ => false
  }

  // Each row is checked on its own: the shape of its codes, and that the words a code begins are
  // located at its symbol.

  lemma Shape0(k: nat) requires k < 16 ensures Shaped(LowRow(0)[k]) {}
  lemma Shape1(k: nat) requires k < 16 ensures Shaped(LowRow(1)[k]) {}
  lemma Shape2(k: nat) requires k < 16 ensures Shaped(LowRow(2)[k]) {}
  lemma Shape3(k: nat) requires k < 16 ensures Shaped(LowRow(3)[k]) {}
  lemma Shape4(k: nat) requires k < 16 ensures Shaped(LowRow(4)[k]) {}
  lemma Shape5(k: nat) requires k < 16 ensures Shaped(LowRow(5)[k]) {}
  lemma Shape6(k: nat) requires k < 16 ensures Shaped(LowRow(6)[k]) {}
  lemma Shape7(k: nat) requires k < 16 ensures Shaped(LowRow(7)[k]) {}
  lemma Shape8(k: nat) requires k < 16 ensures Shaped(HighRow(0)[k]) {}
  lemma Shape9(k: nat) requires k < 16 ensures Shaped(HighRow(1)[k]) {}
  lemma Shape10(k: nat) requires k < 16 ensures Shaped(HighRow(2)[k]) {}
  lemma Shape11(k: nat) requires k < 16 ensures Shaped(HighRow(3)[k]) {}
  lemma Shape12(k: nat) requires k < 16 ensures Shaped(HighRow(4)[k]) {}
  lemma Shape13(k: nat) requires k < 16 ensures Shaped(HighRow(5)[k]) {}
  lemma Shape14(k: nat) requires k < 16 ensures Shaped(HighRow(6)[k]) {}
  lemma Shape15(k: nat) requires k < 16 ensures Shaped(HighRow(7)[k]) {}

  lemma Place0(k: nat, word: nat) requires k < 16 && Owns(LowRow(0)[k], word) ensures Locate(word) == 0 + k {}
  lemma Place1(k: nat, word: nat) requires k < 16 && Owns(LowRow(1)[k], word) ensures Locate(word) == 16 + k {}
  lemma Place2(k: nat, word: nat) requires k < 16 && Owns(LowRow(2)[k], word) ensures Locate(word) == 32 + k {}
  lemma Place3(k: nat, word: nat) requires k < 16 && Owns(LowRow(3)[k], word) ensures Locate(word) == 48 + k {}
  lemma Place4(k: nat, word: nat) requires k < 16 && Owns(LowRow(4)[k], word) ensures Locate(word) == 64 + k {}
  lemma Place5(k: nat, word: nat) requires k < 16 && Owns(LowRow(5)[k], word) ensures Locate(word) == 80 + k {}
  lemma Place6(k: nat, word: nat) requires k < 16 && Owns(LowRow(6)[k], word) ensures Locate(word) == 96 + k {}
  lemma Place7(k: nat, word: nat) requires k < 16 && Owns(LowRow(7)[k], word) ensures Locate(word) == 112 + k {}
  lemma Place8(k: nat, word: nat) requires k < 16 && Owns(HighRow(0)[k], word) ensures Locate(word) == 128 + k {}
  lemma Place9(k: nat, word: nat) requires k < 16 && Owns(HighRow(1)[k], word) ensures Locate(word) == 144 + k {}
  lemma Place10(k: nat, word: nat) requires k < 16 && Owns(HighRow(2)[k], word) ensures Locate(word) == 160 + k {}
  lemma Place11(k: nat, word: nat) requires k < 16 && Owns(HighRow(3)[k], word) ensures Locate(word) == 176 + k {}
  lemma Place12(k: nat, word: nat) requires k < 16 && Owns(HighRow(4)[k], word) ensures Locate(word) == 192 + k {}
  lemma Place13(k: nat, word: nat) requires k < 16 && Owns(HighRow(5)[k], word) ensures Locate(word) == 208 + k {}
  lemma Place14(k: nat, word: nat) requires k < 16 && Owns(HighRow(6)[k], word) ensures Locate(word) == 224 + k {}
  lemma Place15(k: nat, word: nat) requires k < 16 && Owns(HighRow(7)[k], word) ensures Locate(word) == 240 + k {}

  lemma EveryShape(s: nat)
    requires s < 257
    ensures Shaped(CodeOf(s))
  {
    var k := s % 16;
    match s / 16
    case 0 => Shape0(k);
    case 1 => Shape1(k);
    case 2 => Shape2(k);
    case 3 => Shape3(k);
    case 4 => Shape4(k);
    case 5 => Shape5(k);
    case 6 => Shape6(k);
    case 7 => Shape7(k);
    case 8 => Shape8(k);
    case 9 => Shape9(k);
    case 10 => Shape10(k);
    case 11 => Shape11(k);
    case 12 => Shape12(k);
    case 13 => Shape13(k);
    case 14 => Shape14(k);
    case 15 => Shape15(k);
    case _ =>
  }

  lemma EveryPlace(s: nat, word: nat)
    requires s < 257 && Owns(CodeOf(s), word)
    ensures Locate(word) == s
  {
    var k := s % 16;
    match s / 16
    case 0 => Place0(k, word);
    case 1 => Place1(k, word);
    case 2 => Place2(k, word);
    case 3 => Place3(k, word);
    case 4 => Place4(k, word);
    case 5 => Place5(k, word);
    case 6 => Place6(k, word);
    case 7 => Place7(k, word);
    case 8 => Place8(k, word);
    case 9 => Place9(k, word);
    case 10 => Place10(k, word);
    case 11 => Place11(k, word);
    case 12 => Place12(k, word);
    case 13 => Place13(k, word);
    case 14 => Place14(k, word);
    case 15 => Place15(k, word);
    case _ =>
  }

  lemma WidthIsPow2(len: nat)
    requires len in LENGTHS
    ensures Width(len) == Pow2(32 - len)
  {
    assert Pow2(2) == 0x4 && Pow2(4) == 0x10 && Pow2(5) == 0x20 && Pow2(6) == 0x40 && Pow2(7) == 0x80;
    assert Pow2(8) == 0x100 && Pow2(9) == 0x200 && Pow2(10) == 0x400 && Pow2(11) == 0x800 && Pow2(12) == 0x1000;
    assert Pow2(13) == 0x2000 && Pow2(17) == 0x20000 && Pow2(18) == 0x40000 && Pow2(19) == 0x80000 && Pow2(20)
      == 0x100000;
    assert Pow2(21) == 0x200000 && Pow2(22) == 0x400000 && Pow2(24) == 0x1000000 && Pow2(25) == 0x2000000 && Pow2(26)
      == 0x4000000;
    assert Pow2(27) == 0x8000000;
  }

  lemma ShapedIsWellFormed(c: Code)
    requires Shaped(c)
    ensures c.len in LENGTHS && WellFormed(c)
    ensures c.len <= 7 ==> c.bits < 0xf8000000
  {
    WidthIsPow2(c.len);
  }

  lemma OnesWord(n: nat, k: nat)
    ensures Pow2(n + k) - Pow2(k) >= 0
    ensures BitsOf(Pow2(n + k) - Pow2(k), n + k) == Ones(n) + Zeros(k)
  {
    Pow2Monotone(k, n + k);
    Pow2Add(n, k);
    MulLess(Pow2(n), Pow2(k));
    BitsOfOnes(n);
    BitsOfZero(k);
    BitsOfAppend(Pow2(n) - 1, 0, n, k);
  }

  /** A short code that is not among the last words is not all ones. */
  lemma ShortNotOnes(c: Code)
    requires WellFormed(c) && c.len <= 7 && c.bits < 0xf8000000
    ensures CodeBits(c) != Ones(c.len)
  {
    var k := 32 - c.len;
    Pow2Of32();
    Pow2Monotone(k, 27);
    assert Pow2(27) == 0x8000000;
    if CodeBits(c) == Ones(c.len) {
      CodeWord(c);
      OnesWord(c.len, k);
      BitsOfInjective(c.bits, TWO_32 - Pow2(k), 32);
      assert false;
    }
  }

  /** The table of h2pp is a prefix code in which no short code is all ones. */
  lemma TableIsValid()
    ensures ValidTable(HUFFMAN_TABLE)
  {
    var t := HUFFMAN_TABLE;
    forall i | 0 <= i < |t|
      ensures t[i].len in LENGTHS && WellFormed(t[i])
      ensures t[i].len <= 7 ==> CodeBits(t[i]) != Ones(t[i].len)
    {
      EveryShape(i);
      ShapedIsWellFormed(t[i]);
      if t[i].len <= 7 { ShortNotOnes(t[i]); }
    }
    forall i, j | 0 <= i < |t| && 0 <= j < |t| && i != j
      ensures !(CodeBits(t[i]) <= CodeBits(t[j]))
    {
      WidthIsPow2(t[i].len);
      NoOverlap(i, j);
      NotPrefix(t[i], t[j]);
    }
  }

  /** Distinct codes begin distinct words. */
  lemma NoOverlap(i: nat, j: nat)
    requires i < 257 && j < 257 && i != j
    ensures !Owns(CodeOf(i), CodeOf(j).bits)
  {
    var word := CodeOf(j).bits;
    EveryShape(j);
    ShapedHasWidth(CodeOf(j));
    EveryPlace(j, word);
    if Owns(CodeOf(i), word) {
      EveryPlace(i, word);
      assert false;
    }
  }

  lemma ShapedHasWidth(c: Code)
    requires Shaped(c)
    ensures Width(c.len) > 0
  {
  }

  lemma NotPrefix(c: Code, d: Code)
    requires WellFormed(c) && WellFormed(d)
    requires !(c.bits <= d.bits < c.bits + Pow2(32 - c.len))
    ensures !(CodeBits(c) <= CodeBits(d))
  {
    if CodeBits(c) <= CodeBits(d) {
      PrefixMeansInterval(c, d);
      assert false;
    }
  }
}
