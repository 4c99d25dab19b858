/** The AC symbol lists of T.81 tables K.5 and K.6 as tiny_jpeg.c holds them, and their
    inverses: where each run and size pair stands in the list. */
module JpegTableData {
  import opened Arith

  /** The luminance AC symbol at position 16 * h + n of the list. */
  function LumaAc(h: int, n: int): (s: Byte) {
    match h
    case 0 => (
      match n
      case 0 => 0x01 case 1 => 0x02 case 2 => 0x03 case 3 => 0x00 case 4 => 0x04 case 5 => 0x11 case 6 => 0x05 case 7 => 0x12
      case 8 => 0x21 case 9 => 0x31 case 10 => 0x41 case 11 => 0x06 case 12 => 0x13 case 13 => 0x51 case 14 => 0x61 case 15 => 0x07
      case _ => 0)
    case 1 => (
      match n
      case 0 => 0x22 case 1 => 0x71 case 2 => 0x14 case 3 => 0x32 case 4 => 0x81 case 5 => 0x91 case 6 => 0xA1 case 7 => 0x08
      case 8 => 0x23 case 9 => 0x42 case 10 => 0xB1 case 11 => 0xC1 case 12 => 0x15 case 13 => 0x52 case 14 => 0xD1 case 15 => 0xF0
      case _ => 0)
    case 2 => (
      match n
      case 0 => 0x24 case 1 => 0x33 case 2 => 0x62 case 3 => 0x72 case 4 => 0x82 case 5 => 0x09 case 6 => 0x0A case 7 => 0x16
      case 8 => 0x17 case 9 => 0x18 case 10 => 0x19 case 11 => 0x1A case 12 => 0x25 case 13 => 0x26 case 14 => 0x27 case 15 => 0x28
      case _ => 0)
    case 3 => (
      match n
      case 0 => 0x29 case 1 => 0x2A case 2 => 0x34 case 3 => 0x35 case 4 => 0x36 case 5 => 0x37 case 6 => 0x38 case 7 => 0x39
      case 8 => 0x3A case 9 => 0x43 case 10 => 0x44 case 11 => 0x45 case 12 => 0x46 case 13 => 0x47 case 14 => 0x48 case 15 => 0x49
      case _ => 0)
    case 4 => (
      match n
      case 0 => 0x4A case 1 => 0x53 case 2 => 0x54 case 3 => 0x55 case 4 => 0x56 case 5 => 0x57 case 6 => 0x58 case 7 => 0x59
      case 8 => 0x5A case 9 => 0x63 case 10 => 0x64 case 11 => 0x65 case 12 => 0x66 case 13 => 0x67 case 14 => 0x68 case 15 => 0x69
      case _ => 0)
    case 5 => (
      match n
      case 0 => 0x6A case 1 => 0x73 case 2 => 0x74 case 3 => 0x75 case 4 => 0x76 case 5 => 0x77 case 6 => 0x78 case 7 => 0x79
      case 8 => 0x7A case 9 => 0x83 case 10 => 0x84 case 11 => 0x85 case 12 => 0x86 case 13 => 0x87 case 14 => 0x88 case 15 => 0x89
      case _ => 0)
    case 6 => (
      match n
      case 0 => 0x8A case 1 => 0x92 case 2 => 0x93 case 3 => 0x94 case 4 => 0x95 case 5 => 0x96 case 6 => 0x97 case 7 => 0x98
      case 8 => 0x99 case 9 => 0x9A case 10 => 0xA2 case 11 => 0xA3 case 12 => 0xA4 case 13 => 0xA5 case 14 => 0xA6 case 15 => 0xA7
      case _ => 0)
    case 7 => (
      match n
      case 0 => 0xA8 case 1 => 0xA9 case 2 => 0xAA case 3 => 0xB2 case 4 => 0xB3 case 5 => 0xB4 case 6 => 0xB5 case 7 => 0xB6
      case 8 => 0xB7 case 9 => 0xB8 case 10 => 0xB9 case 11 => 0xBA case 12 => 0xC2 case 13 => 0xC3 case 14 => 0xC4 case 15 => 0xC5
      case _ => 0)
    case 8 => (
      match n
      case 0 => 0xC6 case 1 => 0xC7 case 2 => 0xC8 case 3 => 0xC9 case 4 => 0xCA case 5 => 0xD2 case 6 => 0xD3 case 7 => 0xD4
      case 8 => 0xD5 case 9 => 0xD6 case 10 => 0xD7 case 11 => 0xD8 case 12 => 0xD9 case 13 => 0xDA case 14 => 0xE1 case 15 => 0xE2
      case _ => 0)
    case 9 => (
      match n
      case 0 => 0xE3 case 1 => 0xE4 case 2 => 0xE5 case 3 => 0xE6 case 4 => 0xE7 case 5 => 0xE8 case 6 => 0xE9 case 7 => 0xEA
      case 8 => 0xF1 case 9 => 0xF2 case 10 => 0xF3 case 11 => 0xF4 case 12 => 0xF5 case 13 => 0xF6 case 14 => 0xF7 case 15 => 0xF8
      case _ => 0)
    case 10 => (
      match n
      case 0 => 0xF9 case 1 => 0xFA case _ => 0)
    case _ => 0
  }

  /** Where the luminance AC symbol with run h and size n stands in the list. */
  function LumaAcAt(h: int, n: int): (v: int) {
    match h
    case 0 => (
      match n
      case 0 => 3 case 1 => 0 case 2 => 1 case 3 => 2 case 4 => 4 case 5 => 6 case 6 => 11 case 7 => 15
      case 8 => 23 case 9 => 37 case 10 => 38 case _ => 162)
    case 1 => (
      match n
      case 1 => 5 case 2 => 7 case 3 => 12 case 4 => 18 case 5 => 28 case 6 => 39 case 7 => 40 case 8 => 41
      case 9 => 42 case 10 => 43 case _ => 162)
    case 2 => (
      match n
      case 1 => 8 case 2 => 16 case 3 => 24 case 4 => 32 case 5 => 44 case 6 => 45 case 7 => 46 case 8 => 47
      case 9 => 48 case 10 => 49 case _ => 162)
    case 3 => (
      match n
      case 1 => 9 case 2 => 19 case 3 => 33 case 4 => 50 case 5 => 51 case 6 => 52 case 7 => 53 case 8 => 54
      case 9 => 55 case 10 => 56 case _ => 162)
    case 4 => (
      match n
      case 1 => 10 case 2 => 25 case 3 => 57 case 4 => 58 case 5 => 59 case 6 => 60 case 7 => 61 case 8 => 62
      case 9 => 63 case 10 => 64 case _ => 162)
    case 5 => (
      match n
      case 1 => 13 case 2 => 29 case 3 => 65 case 4 => 66 case 5 => 67 case 6 => 68 case 7 => 69 case 8 => 70
      case 9 => 71 case 10 => 72 case _ => 162)
    case 6 => (
      match n
      case 1 => 14 case 2 => 34 case 3 => 73 case 4 => 74 case 5 => 75 case 6 => 76 case 7 => 77 case 8 => 78
      case 9 => 79 case 10 => 80 case _ => 162)
    case 7 => (
      match n
      case 1 => 17 case 2 => 35 case 3 => 81 case 4 => 82 case 5 => 83 case 6 => 84 case 7 => 85 case 8 => 86
      case 9 => 87 case 10 => 88 case _ => 162)
    case 8 => (
      match n
      case 1 => 20 case 2 => 36 case 3 => 89 case 4 => 90 case 5 => 91 case 6 => 92 case 7 => 93 case 8 => 94
      case 9 => 95 case 10 => 96 case _ => 162)
    case 9 => (
      match n
      case 1 => 21 case 2 => 97 case 3 => 98 case 4 => 99 case 5 => 100 case 6 => 101 case 7 => 102 case 8 => 103
      case 9 => 104 case 10 => 105 case _ => 162)
    case 10 => (
      match n
      case 1 => 22 case 2 => 106 case 3 => 107 case 4 => 108 case 5 => 109 case 6 => 110 case 7 => 111 case 8 => 112
      case 9 => 113 case 10 => 114 case _ => 162)
    case 11 => (
      match n
      case 1 => 26 case 2 => 115 case 3 => 116 case 4 => 117 case 5 => 118 case 6 => 119 case 7 => 120 case 8 => 121
      case 9 => 122 case 10 => 123 case _ => 162)
    case 12 => (
      match n
      case 1 => 27 case 2 => 124 case 3 => 125 case 4 => 126 case 5 => 127 case 6 => 128 case 7 => 129 case 8 => 130
      case 9 => 131 case 10 => 132 case _ => 162)
    case 13 => (
      match n
      case 1 => 30 case 2 => 133 case 3 => 134 case 4 => 135 case 5 => 136 case 6 => 137 case 7 => 138 case 8 => 139
      case 9 => 140 case 10 => 141 case _ => 162)
    case 14 => (
      match n
      case 1 => 142 case 2 => 143 case 3 => 144 case 4 => 145 case 5 => 146 case 6 => 147 case 7 => 148 case 8 => 149
      case 9 => 150 case 10 => 151 case _ => 162)
    case 15 => (
      match n
      case 0 => 31 case 1 => 152 case 2 => 153 case 3 => 154 case 4 => 155 case 5 => 156 case 6 => 157 case 7 => 158
      case 8 => 159 case 9 => 160 case 10 => 161 case _ => 162)
    case _ => 162
  }

  lemma LumaAcPlaced0(h: int, n: int)
    requires 0 <= h < 4 && 0 <= n < 16 && 16 * h + n < 162
    ensures var v := LumaAc(h, n); LumaAcAt(v / 16, v % 16) == 16 * h + n
  {
  }

  lemma LumaAcPlaced1(h: int, n: int)
    requires 4 <= h < 8 && 0 <= n < 16 && 16 * h + n < 162
    ensures var v := LumaAc(h, n); LumaAcAt(v / 16, v % 16) == 16 * h + n
  {
  }

  lemma LumaAcPlaced2(h: int, n: int)
    requires 8 <= h < 11 && 0 <= n < 16 && 16 * h + n < 162
    ensures var v := LumaAc(h, n); LumaAcAt(v / 16, v % 16) == 16 * h + n
  {
  }

  /** No symbol stands at two places. */
  lemma LumaAcPlaced(h: int, n: int)
    requires 0 <= h < 11 && 0 <= n < 16 && 16 * h + n < 162
    ensures var v := LumaAc(h, n); LumaAcAt(v / 16, v % 16) == 16 * h + n
  {
    hide *;
    if h < 4 {
      LumaAcPlaced0(h, n);
    } else if h < 8 {
      LumaAcPlaced1(h, n);
    } else {
      LumaAcPlaced2(h, n);
    }
  }

  lemma LumaAcHas0(h: int, n: int)
    requires 0 <= h < 4 && (1 <= n <= 10 || (n == 0 && h == 0))
    ensures var k := LumaAcAt(h, n); 0 <= k < 162 && LumaAc(k / 16, k % 16) == 16 * h + n
  {
  }

  lemma LumaAcHas1(h: int, n: int)
    requires 4 <= h < 8 && 1 <= n <= 10
    ensures var k := LumaAcAt(h, n); 0 <= k < 162 && LumaAc(k / 16, k % 16) == 16 * h + n
  {
  }

  lemma LumaAcHas2(h: int, n: int)
    requires 8 <= h < 12 && 1 <= n <= 10
    ensures var k := LumaAcAt(h, n); 0 <= k < 162 && LumaAc(k / 16, k % 16) == 16 * h + n
  {
  }

  lemma LumaAcHas3(h: int, n: int)
    requires 12 <= h < 16 && (1 <= n <= 10 || (n == 0 && h == 15))
    ensures var k := LumaAcAt(h, n); 0 <= k < 162 && LumaAc(k / 16, k % 16) == 16 * h + n
  {
  }

  /** Every run and size pair, the end of block and the run of sixteen are in the list. */
  lemma LumaAcHas(h: int, n: int)
    requires 0 <= h < 16 && (1 <= n <= 10 || (n == 0 && (h == 0 || h == 15)))
    ensures var k := LumaAcAt(h, n); 0 <= k < 162 && LumaAc(k / 16, k % 16) == 16 * h + n
  {
    hide *;
    if h < 4 {
      LumaAcHas0(h, n);
    } else if h < 8 {
      LumaAcHas1(h, n);
    } else if h < 12 {
      LumaAcHas2(h, n);
    } else {
      LumaAcHas3(h, n);
    }
  }

  /** The chrominance AC symbol at position 16 * h + n of the list. */
  function ChromaAc(h: int, n: int): (s: Byte) {
    match h
    case 0 => (
      match n
      case 0 => 0x00 case 1 => 0x01 case 2 => 0x02 case 3 => 0x03 case 4 => 0x11 case 5 => 0x04 case 6 => 0x05 case 7 => 0x21
      case 8 => 0x31 case 9 => 0x06 case 10 => 0x12 case 11 => 0x41 case 12 => 0x51 case 13 => 0x07 case 14 => 0x61 case 15 => 0x71
      case _ => 0)
    case 1 => (
      match n
      case 0 => 0x13 case 1 => 0x22 case 2 => 0x32 case 3 => 0x81 case 4 => 0x08 case 5 => 0x14 case 6 => 0x42 case 7 => 0x91
      case 8 => 0xA1 case 9 => 0xB1 case 10 => 0xC1 case 11 => 0x09 case 12 => 0x23 case 13 => 0x33 case 14 => 0x52 case 15 => 0xF0
      case _ => 0)
    case 2 => (
      match n
      case 0 => 0x15 case 1 => 0x62 case 2 => 0x72 case 3 => 0xD1 case 4 => 0x0A case 5 => 0x16 case 6 => 0x24 case 7 => 0x34
      case 8 => 0xE1 case 9 => 0x25 case 10 => 0xF1 case 11 => 0x17 case 12 => 0x18 case 13 => 0x19 case 14 => 0x1A case 15 => 0x26
      case _ => 0)
    case 3 => (
      match n
      case 0 => 0x27 case 1 => 0x28 case 2 => 0x29 case 3 => 0x2A case 4 => 0x35 case 5 => 0x36 case 6 => 0x37 case 7 => 0x38
      case 8 => 0x39 case 9 => 0x3A case 10 => 0x43 case 11 => 0x44 case 12 => 0x45 case 13 => 0x46 case 14 => 0x47 case 15 => 0x48
      case _ => 0)
    case 4 => (
      match n
      case 0 => 0x49 case 1 => 0x4A case 2 => 0x53 case 3 => 0x54 case 4 => 0x55 case 5 => 0x56 case 6 => 0x57 case 7 => 0x58
      case 8 => 0x59 case 9 => 0x5A case 10 => 0x63 case 11 => 0x64 case 12 => 0x65 case 13 => 0x66 case 14 => 0x67 case 15 => 0x68
      case _ => 0)
    case 5 => (
      match n
      case 0 => 0x69 case 1 => 0x6A case 2 => 0x73 case 3 => 0x74 case 4 => 0x75 case 5 => 0x76 case 6 => 0x77 case 7 => 0x78
      case 8 => 0x79 case 9 => 0x7A case 10 => 0x82 case 11 => 0x83 case 12 => 0x84 case 13 => 0x85 case 14 => 0x86 case 15 => 0x87
      case _ => 0)
    case 6 => (
      match n
      case 0 => 0x88 case 1 => 0x89 case 2 => 0x8A case 3 => 0x92 case 4 => 0x93 case 5 => 0x94 case 6 => 0x95 case 7 => 0x96
      case 8 => 0x97 case 9 => 0x98 case 10 => 0x99 case 11 => 0x9A case 12 => 0xA2 case 13 => 0xA3 case 14 => 0xA4 case 15 => 0xA5
      case _ => 0)
    case 7 => (
      match n
      case 0 => 0xA6 case 1 => 0xA7 case 2 => 0xA8 case 3 => 0xA9 case 4 => 0xAA case 5 => 0xB2 case 6 => 0xB3 case 7 => 0xB4
      case 8 => 0xB5 case 9 => 0xB6 case 10 => 0xB7 case 11 => 0xB8 case 12 => 0xB9 case 13 => 0xBA case 14 => 0xC2 case 15 => 0xC3
      case _ => 0)
    case 8 => (
      match n
      case 0 => 0xC4 case 1 => 0xC5 case 2 => 0xC6 case 3 => 0xC7 case 4 => 0xC8 case 5 => 0xC9 case 6 => 0xCA case 7 => 0xD2
      case 8 => 0xD3 case 9 => 0xD4 case 10 => 0xD5 case 11 => 0xD6 case 12 => 0xD7 case 13 => 0xD8 case 14 => 0xD9 case 15 => 0xDA
      case _ => 0)
    case 9 => (
      match n
      case 0 => 0xE2 case 1 => 0xE3 case 2 => 0xE4 case 3 => 0xE5 case 4 => 0xE6 case 5 => 0xE7 case 6 => 0xE8 case 7 => 0xE9
      case 8 => 0xEA case 9 => 0xF2 case 10 => 0xF3 case 11 => 0xF4 case 12 => 0xF5 case 13 => 0xF6 case 14 => 0xF7 case 15 => 0xF8
      case _ => 0)
    case 10 => (
      match n
      case 0 => 0xF9 case 1 => 0xFA case _ => 0)
    case _ => 0
  }

  /** Where the chrominance AC symbol with run h and size n stands in the list. */
  function ChromaAcAt(h: int, n: int): (v: int) {
    match h
    case 0 => (
      match n
      case 0 => 0 case 1 => 1 case 2 => 2 case 3 => 3 case 4 => 5 case 5 => 6 case 6 => 9 case 7 => 13
      case 8 => 20 case 9 => 27 case 10 => 36 case _ => 162)
    case 1 => (
      match n
      case 1 => 4 case 2 => 10 case 3 => 16 case 4 => 21 case 5 => 32 case 6 => 37 case 7 => 43 case 8 => 44
      case 9 => 45 case 10 => 46 case _ => 162)
    case 2 => (
      match n
      case 1 => 7 case 2 => 17 case 3 => 28 case 4 => 38 case 5 => 41 case 6 => 47 case 7 => 48 case 8 => 49
      case 9 => 50 case 10 => 51 case _ => 162)
    case 3 => (
      match n
      case 1 => 8 case 2 => 18 case 3 => 29 case 4 => 39 case 5 => 52 case 6 => 53 case 7 => 54 case 8 => 55
      case 9 => 56 case 10 => 57 case _ => 162)
    case 4 => (
      match n
      case 1 => 11 case 2 => 22 case 3 => 58 case 4 => 59 case 5 => 60 case 6 => 61 case 7 => 62 case 8 => 63
      case 9 => 64 case 10 => 65 case _ => 162)
    case 5 => (
      match n
      case 1 => 12 case 2 => 30 case 3 => 66 case 4 => 67 case 5 => 68 case 6 => 69 case 7 => 70 case 8 => 71
      case 9 => 72 case 10 => 73 case _ => 162)
    case 6 => (
      match n
      case 1 => 14 case 2 => 33 case 3 => 74 case 4 => 75 case 5 => 76 case 6 => 77 case 7 => 78 case 8 => 79
      case 9 => 80 case 10 => 81 case _ => 162)
    case 7 => (
      match n
      case 1 => 15 case 2 => 34 case 3 => 82 case 4 => 83 case 5 => 84 case 6 => 85 case 7 => 86 case 8 => 87
      case 9 => 88 case 10 => 89 case _ => 162)
    case 8 => (
      match n
      case 1 => 19 case 2 => 90 case 3 => 91 case 4 => 92 case 5 => 93 case 6 => 94 case 7 => 95 case 8 => 96
      case 9 => 97 case 10 => 98 case _ => 162)
    case 9 => (
      match n
      case 1 => 23 case 2 => 99 case 3 => 100 case 4 => 101 case 5 => 102 case 6 => 103 case 7 => 104 case 8 => 105
      case 9 => 106 case 10 => 107 case _ => 162)
    case 10 => (
      match n
      case 1 => 24 case 2 => 108 case 3 => 109 case 4 => 110 case 5 => 111 case 6 => 112 case 7 => 113 case 8 => 114
      case 9 => 115 case 10 => 116 case _ => 162)
    case 11 => (
      match n
      case 1 => 25 case 2 => 117 case 3 => 118 case 4 => 119 case 5 => 120 case 6 => 121 case 7 => 122 case 8 => 123
      case 9 => 124 case 10 => 125 case _ => 162)
    case 12 => (
      match n
      case 1 => 26 case 2 => 126 case 3 => 127 case 4 => 128 case 5 => 129 case 6 => 130 case 7 => 131 case 8 => 132
      case 9 => 133 case 10 => 134 case _ => 162)
    case 13 => (
      match n
      case 1 => 35 case 2 => 135 case 3 => 136 case 4 => 137 case 5 => 138 case 6 => 139 case 7 => 140 case 8 => 141
      case 9 => 142 case 10 => 143 case _ => 162)
    case 14 => (
      match n
      case 1 => 40 case 2 => 144 case 3 => 145 case 4 => 146 case 5 => 147 case 6 => 148 case 7 => 149 case 8 => 150
      case 9 => 151 case 10 => 152 case _ => 162)
    case 15 => (
      match n
      case 0 => 31 case 1 => 42 case 2 => 153 case 3 => 154 case 4 => 155 case 5 => 156 case 6 => 157 case 7 => 158
      case 8 => 159 case 9 => 160 case 10 => 161 case _ => 162)
    case _ => 162
  }

  lemma ChromaAcPlaced0(h: int, n: int)
    requires 0 <= h < 4 && 0 <= n < 16 && 16 * h + n < 162
    ensures var v := ChromaAc(h, n); ChromaAcAt(v / 16, v % 16) == 16 * h + n
  {
  }

  lemma ChromaAcPlaced1(h: int, n: int)
    requires 4 <= h < 8 && 0 <= n < 16 && 16 * h + n < 162
    ensures var v := ChromaAc(h, n); ChromaAcAt(v / 16, v % 16) == 16 * h + n
  {
  }

  lemma ChromaAcPlaced2(h: int, n: int)
    requires 8 <= h < 11 && 0 <= n < 16 && 16 * h + n < 162
    ensures var v := ChromaAc(h, n); ChromaAcAt(v / 16, v % 16) == 16 * h + n
  {
  }

  /** No symbol stands at two places. */
  lemma ChromaAcPlaced(h: int, n: int)
    requires 0 <= h < 11 && 0 <= n < 16 && 16 * h + n < 162
    ensures var v := ChromaAc(h, n); ChromaAcAt(v / 16, v % 16) == 16 * h + n
  {
    hide *;
    if h < 4 {
      ChromaAcPlaced0(h, n);
    } else if h < 8 {
      ChromaAcPlaced1(h, n);
    } else {
      ChromaAcPlaced2(h, n);
    }
  }

  lemma ChromaAcHas0(h: int, n: int)
    requires 0 <= h < 4 && (1 <= n <= 10 || (n == 0 && h == 0))
    ensures var k := ChromaAcAt(h, n); 0 <= k < 162 && ChromaAc(k / 16, k % 16) == 16 * h + n
  {
  }

  lemma ChromaAcHas1(h: int, n: int)
    requires 4 <= h < 8 && 1 <= n <= 10
    ensures var k := ChromaAcAt(h, n); 0 <= k < 162 && ChromaAc(k / 16, k % 16) == 16 * h + n
  {
  }

  lemma ChromaAcHas2(h: int, n: int)
    requires 8 <= h < 12 && 1 <= n <= 10
    ensures var k := ChromaAcAt(h, n); 0 <= k < 162 && ChromaAc(k / 16, k % 16) == 16 * h + n
  {
  }

  lemma ChromaAcHas3(h: int, n: int)
    requires 12 <= h < 16 && (1 <= n <= 10 || (n == 0 && h == 15))
    ensures var k := ChromaAcAt(h, n); 0 <= k < 162 && ChromaAc(k / 16, k % 16) == 16 * h + n
  {
  }

  /** Every run and size pair, the end of block and the run of sixteen are in the list. */
  lemma ChromaAcHas(h: int, n: int)
    requires 0 <= h < 16 && (1 <= n <= 10 || (n == 0 && (h == 0 || h == 15)))
    ensures var k := ChromaAcAt(h, n); 0 <= k < 162 && ChromaAc(k / 16, k % 16) == 16 * h + n
  {
    hide *;
    if h < 4 {
      ChromaAcHas0(h, n);
    } else if h < 8 {
      ChromaAcHas1(h, n);
    } else if h < 12 {
      ChromaAcHas2(h, n);
    } else {
      ChromaAcHas3(h, n);
    }
  }
}
