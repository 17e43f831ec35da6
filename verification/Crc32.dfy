/**
 The table-driven CRC-32 of limine/limine.c against the bit-at-a-time definition.  The word
 operations have names so that a proof can treat them as symbols.
 */
module Crc32 {
  import opened Machine

  function Xor(x: bv32, y: bv32): bv32 {
    x ^ y
  }

  function Byte(x: bv32): bv32 {
    x & 0xff
  }

  function Word(b: u8): bv32 {
    (b as bv8) as bv32
  }

  function DropByte(x: bv32): bv32 {
    x >> 8
  }

  // ----- the reference -----

  /** One bit of the reflected CRC with polynomial 0xEDB88320. */
  function Bit(x: bv32): bv32 {
    if x & 1 == 1 then (x >> 1) ^ 0xedb88320 else x >> 1
  }

  function EightBits(x: bv32): bv32 {
    Bit(Bit(Bit(Bit(Bit(Bit(Bit(Bit(x))))))))
  }

  function Register(s: Bytes): bv32 {
    if s == [] then 0xffffffff else EightBits(Xor(Register(s[..|s| - 1]), Word(s[|s| - 1])))
  }

  /** Initial value and final exclusive-or are all ones. */
  function Crc(s: Bytes): bv32 {
    Xor(Register(s), 0xffffffff)
  }

  // ----- the table -----

  function Row0(j: bv32): bv32 {
    match j
    case 0 => 0x00000000 case 1 => 0x77073096 case 2 => 0xee0e612c case 3 => 0x990951ba
    case 4 => 0x076dc419 case 5 => 0x706af48f case 6 => 0xe963a535 case 7 => 0x9e6495a3
    case 8 => 0x0edb8832 case 9 => 0x79dcb8a4 case 10 => 0xe0d5e91e case 11 => 0x97d2d988
    case 12 => 0x09b64c2b case 13 => 0x7eb17cbd case 14 => 0xe7b82d07 case 15 => 0x90bf1d91
    case _ => 0
  }

  function Row1(j: bv32): bv32 {
    match j
    case 0 => 0x1db71064 case 1 => 0x6ab020f2 case 2 => 0xf3b97148 case 3 => 0x84be41de
    case 4 => 0x1adad47d case 5 => 0x6ddde4eb case 6 => 0xf4d4b551 case 7 => 0x83d385c7
    case 8 => 0x136c9856 case 9 => 0x646ba8c0 case 10 => 0xfd62f97a case 11 => 0x8a65c9ec
    case 12 => 0x14015c4f case 13 => 0x63066cd9 case 14 => 0xfa0f3d63 case 15 => 0x8d080df5
    case _ => 0
  }

  function Row2(j: bv32): bv32 {
    match j
    case 0 => 0x3b6e20c8 case 1 => 0x4c69105e case 2 => 0xd56041e4 case 3 => 0xa2677172
    case 4 => 0x3c03e4d1 case 5 => 0x4b04d447 case 6 => 0xd20d85fd case 7 => 0xa50ab56b
    case 8 => 0x35b5a8fa case 9 => 0x42b2986c case 10 => 0xdbbbc9d6 case 11 => 0xacbcf940
    case 12 => 0x32d86ce3 case 13 => 0x45df5c75 case 14 => 0xdcd60dcf case 15 => 0xabd13d59
    case _ => 0
  }

  function Row3(j: bv32): bv32 {
    match j
    case 0 => 0x26d930ac case 1 => 0x51de003a case 2 => 0xc8d75180 case 3 => 0xbfd06116
    case 4 => 0x21b4f4b5 case 5 => 0x56b3c423 case 6 => 0xcfba9599 case 7 => 0xb8bda50f
    case 8 => 0x2802b89e case 9 => 0x5f058808 case 10 => 0xc60cd9b2 case 11 => 0xb10be924
    case 12 => 0x2f6f7c87 case 13 => 0x58684c11 case 14 => 0xc1611dab case 15 => 0xb6662d3d
    case _ => 0
  }

  function Row4(j: bv32): bv32 {
    match j
    case 0 => 0x76dc4190 case 1 => 0x01db7106 case 2 => 0x98d220bc case 3 => 0xefd5102a
    case 4 => 0x71b18589 case 5 => 0x06b6b51f case 6 => 0x9fbfe4a5 case 7 => 0xe8b8d433
    case 8 => 0x7807c9a2 case 9 => 0x0f00f934 case 10 => 0x9609a88e case 11 => 0xe10e9818
    case 12 => 0x7f6a0dbb case 13 => 0x086d3d2d case 14 => 0x91646c97 case 15 => 0xe6635c01
    case _ => 0
  }

  function Row5(j: bv32): bv32 {
    match j
    case 0 => 0x6b6b51f4 case 1 => 0x1c6c6162 case 2 => 0x856530d8 case 3 => 0xf262004e
    case 4 => 0x6c0695ed case 5 => 0x1b01a57b case 6 => 0x8208f4c1 case 7 => 0xf50fc457
    case 8 => 0x65b0d9c6 case 9 => 0x12b7e950 case 10 => 0x8bbeb8ea case 11 => 0xfcb9887c
    case 12 => 0x62dd1ddf case 13 => 0x15da2d49 case 14 => 0x8cd37cf3 case 15 => 0xfbd44c65
    case _ => 0
  }

  function Row6(j: bv32): bv32 {
    match j
    case 0 => 0x4db26158 case 1 => 0x3ab551ce case 2 => 0xa3bc0074 case 3 => 0xd4bb30e2
    case 4 => 0x4adfa541 case 5 => 0x3dd895d7 case 6 => 0xa4d1c46d case 7 => 0xd3d6f4fb
    case 8 => 0x4369e96a case 9 => 0x346ed9fc case 10 => 0xad678846 case 11 => 0xda60b8d0
    case 12 => 0x44042d73 case 13 => 0x33031de5 case 14 => 0xaa0a4c5f case 15 => 0xdd0d7cc9
    case _ => 0
  }

  function Row7(j: bv32): bv32 {
    match j
    case 0 => 0x5005713c case 1 => 0x270241aa case 2 => 0xbe0b1010 case 3 => 0xc90c2086
    case 4 => 0x5768b525 case 5 => 0x206f85b3 case 6 => 0xb966d409 case 7 => 0xce61e49f
    case 8 => 0x5edef90e case 9 => 0x29d9c998 case 10 => 0xb0d09822 case 11 => 0xc7d7a8b4
    case 12 => 0x59b33d17 case 13 => 0x2eb40d81 case 14 => 0xb7bd5c3b case 15 => 0xc0ba6cad
    case _ => 0
  }

  function Row8(j: bv32): bv32 {
    match j
    case 0 => 0xedb88320 case 1 => 0x9abfb3b6 case 2 => 0x03b6e20c case 3 => 0x74b1d29a
    case 4 => 0xead54739 case 5 => 0x9dd277af case 6 => 0x04db2615 case 7 => 0x73dc1683
    case 8 => 0xe3630b12 case 9 => 0x94643b84 case 10 => 0x0d6d6a3e case 11 => 0x7a6a5aa8
    case 12 => 0xe40ecf0b case 13 => 0x9309ff9d case 14 => 0x0a00ae27 case 15 => 0x7d079eb1
    case _ => 0
  }

  function Row9(j: bv32): bv32 {
    match j
    case 0 => 0xf00f9344 case 1 => 0x8708a3d2 case 2 => 0x1e01f268 case 3 => 0x6906c2fe
    case 4 => 0xf762575d case 5 => 0x806567cb case 6 => 0x196c3671 case 7 => 0x6e6b06e7
    case 8 => 0xfed41b76 case 9 => 0x89d32be0 case 10 => 0x10da7a5a case 11 => 0x67dd4acc
    case 12 => 0xf9b9df6f case 13 => 0x8ebeeff9 case 14 => 0x17b7be43 case 15 => 0x60b08ed5
    case _ => 0
  }

  function RowA(j: bv32): bv32 {
    match j
    case 0 => 0xd6d6a3e8 case 1 => 0xa1d1937e case 2 => 0x38d8c2c4 case 3 => 0x4fdff252
    case 4 => 0xd1bb67f1 case 5 => 0xa6bc5767 case 6 => 0x3fb506dd case 7 => 0x48b2364b
    case 8 => 0xd80d2bda case 9 => 0xaf0a1b4c case 10 => 0x36034af6 case 11 => 0x41047a60
    case 12 => 0xdf60efc3 case 13 => 0xa867df55 case 14 => 0x316e8eef case 15 => 0x4669be79
    case _ => 0
  }

  function RowB(j: bv32): bv32 {
    match j
    case 0 => 0xcb61b38c case 1 => 0xbc66831a case 2 => 0x256fd2a0 case 3 => 0x5268e236
    case 4 => 0xcc0c7795 case 5 => 0xbb0b4703 case 6 => 0x220216b9 case 7 => 0x5505262f
    case 8 => 0xc5ba3bbe case 9 => 0xb2bd0b28 case 10 => 0x2bb45a92 case 11 => 0x5cb36a04
    case 12 => 0xc2d7ffa7 case 13 => 0xb5d0cf31 case 14 => 0x2cd99e8b case 15 => 0x5bdeae1d
    case _ => 0
  }

  function RowC(j: bv32): bv32 {
    match j
    case 0 => 0x9b64c2b0 case 1 => 0xec63f226 case 2 => 0x756aa39c case 3 => 0x026d930a
    case 4 => 0x9c0906a9 case 5 => 0xeb0e363f case 6 => 0x72076785 case 7 => 0x05005713
    case 8 => 0x95bf4a82 case 9 => 0xe2b87a14 case 10 => 0x7bb12bae case 11 => 0x0cb61b38
    case 12 => 0x92d28e9b case 13 => 0xe5d5be0d case 14 => 0x7cdcefb7 case 15 => 0x0bdbdf21
    case _ => 0
  }

  function RowD(j: bv32): bv32 {
    match j
    case 0 => 0x86d3d2d4 case 1 => 0xf1d4e242 case 2 => 0x68ddb3f8 case 3 => 0x1fda836e
    case 4 => 0x81be16cd case 5 => 0xf6b9265b case 6 => 0x6fb077e1 case 7 => 0x18b74777
    case 8 => 0x88085ae6 case 9 => 0xff0f6a70 case 10 => 0x66063bca case 11 => 0x11010b5c
    case 12 => 0x8f659eff case 13 => 0xf862ae69 case 14 => 0x616bffd3 case 15 => 0x166ccf45
    case _ => 0
  }

  function RowE(j: bv32): bv32 {
    match j
    case 0 => 0xa00ae278 case 1 => 0xd70dd2ee case 2 => 0x4e048354 case 3 => 0x3903b3c2
    case 4 => 0xa7672661 case 5 => 0xd06016f7 case 6 => 0x4969474d case 7 => 0x3e6e77db
    case 8 => 0xaed16a4a case 9 => 0xd9d65adc case 10 => 0x40df0b66 case 11 => 0x37d83bf0
    case 12 => 0xa9bcae53 case 13 => 0xdebb9ec5 case 14 => 0x47b2cf7f case 15 => 0x30b5ffe9
    case _ => 0
  }

  function RowF(j: bv32): bv32 {
    match j
    case 0 => 0xbdbdf21c case 1 => 0xcabac28a case 2 => 0x53b39330 case 3 => 0x24b4a3a6
    case 4 => 0xbad03605 case 5 => 0xcdd70693 case 6 => 0x54de5729 case 7 => 0x23d967bf
    case 8 => 0xb3667a2e case 9 => 0xc4614ab8 case 10 => 0x5d681b02 case 11 => 0x2a6f2b94
    case 12 => 0xb40bbe37 case 13 => 0xc30c8ea1 case 14 => 0x5a05df1b case 15 => 0x2d02ef8d
    case _ => 0
  }

  function Table(i: bv32): bv32 {
    var j := i & 15;
    match i >> 4
    case 0 => Row0(j) case 1 => Row1(j) case 2 => Row2(j) case 3 => Row3(j)
    case 4 => Row4(j) case 5 => Row5(j) case 6 => Row6(j) case 7 => Row7(j)
    case 8 => Row8(j) case 9 => Row9(j) case 10 => RowA(j) case 11 => RowB(j)
    case 12 => RowC(j) case 13 => RowD(j) case 14 => RowE(j) case 15 => RowF(j)
    case _ => 0
  }

  lemma Check0(j: bv32)
    requires j < 16
    ensures Row0(j) == EightBits(0 | j)
  {
    match j
    case 0 => assert EightBits(0) == 0x00000000; case 1 => assert EightBits(1) == 0x77073096;
    case 2 => assert EightBits(2) == 0xee0e612c; case 3 => assert EightBits(3) == 0x990951ba;
    case 4 => assert EightBits(4) == 0x076dc419; case 5 => assert EightBits(5) == 0x706af48f;
    case 6 => assert EightBits(6) == 0xe963a535; case 7 => assert EightBits(7) == 0x9e6495a3;
    case 8 => assert EightBits(8) == 0x0edb8832; case 9 => assert EightBits(9) == 0x79dcb8a4;
    case 10 => assert EightBits(10) == 0xe0d5e91e; case 11 => assert EightBits(11) == 0x97d2d988;
    case 12 => assert EightBits(12) == 0x09b64c2b; case 13 => assert EightBits(13) == 0x7eb17cbd;
    case 14 => assert EightBits(14) == 0xe7b82d07; case 15 => assert EightBits(15) == 0x90bf1d91;
    case _ =>
  }

  lemma Check1(j: bv32)
    requires j < 16
    ensures Row1(j) == EightBits(16 | j)
  {
    match j
    case 0 => assert EightBits(16) == 0x1db71064; case 1 => assert EightBits(17) == 0x6ab020f2;
    case 2 => assert EightBits(18) == 0xf3b97148; case 3 => assert EightBits(19) == 0x84be41de;
    case 4 => assert EightBits(20) == 0x1adad47d; case 5 => assert EightBits(21) == 0x6ddde4eb;
    case 6 => assert EightBits(22) == 0xf4d4b551; case 7 => assert EightBits(23) == 0x83d385c7;
    case 8 => assert EightBits(24) == 0x136c9856; case 9 => assert EightBits(25) == 0x646ba8c0;
    case 10 => assert EightBits(26) == 0xfd62f97a; case 11 => assert EightBits(27) == 0x8a65c9ec;
    case 12 => assert EightBits(28) == 0x14015c4f; case 13 => assert EightBits(29) == 0x63066cd9;
    case 14 => assert EightBits(30) == 0xfa0f3d63; case 15 => assert EightBits(31) == 0x8d080df5;
    case _ =>
  }

  lemma Check2(j: bv32)
    requires j < 16
    ensures Row2(j) == EightBits(32 | j)
  {
    match j
    case 0 => assert EightBits(32) == 0x3b6e20c8; case 1 => assert EightBits(33) == 0x4c69105e;
    case 2 => assert EightBits(34) == 0xd56041e4; case 3 => assert EightBits(35) == 0xa2677172;
    case 4 => assert EightBits(36) == 0x3c03e4d1; case 5 => assert EightBits(37) == 0x4b04d447;
    case 6 => assert EightBits(38) == 0xd20d85fd; case 7 => assert EightBits(39) == 0xa50ab56b;
    case 8 => assert EightBits(40) == 0x35b5a8fa; case 9 => assert EightBits(41) == 0x42b2986c;
    case 10 => assert EightBits(42) == 0xdbbbc9d6; case 11 => assert EightBits(43) == 0xacbcf940;
    case 12 => assert EightBits(44) == 0x32d86ce3; case 13 => assert EightBits(45) == 0x45df5c75;
    case 14 => assert EightBits(46) == 0xdcd60dcf; case 15 => assert EightBits(47) == 0xabd13d59;
    case _ =>
  }

  lemma Check3(j: bv32)
    requires j < 16
    ensures Row3(j) == EightBits(48 | j)
  {
    match j
    case 0 => assert EightBits(48) == 0x26d930ac; case 1 => assert EightBits(49) == 0x51de003a;
    case 2 => assert EightBits(50) == 0xc8d75180; case 3 => assert EightBits(51) == 0xbfd06116;
    case 4 => assert EightBits(52) == 0x21b4f4b5; case 5 => assert EightBits(53) == 0x56b3c423;
    case 6 => assert EightBits(54) == 0xcfba9599; case 7 => assert EightBits(55) == 0xb8bda50f;
    case 8 => assert EightBits(56) == 0x2802b89e; case 9 => assert EightBits(57) == 0x5f058808;
    case 10 => assert EightBits(58) == 0xc60cd9b2; case 11 => assert EightBits(59) == 0xb10be924;
    case 12 => assert EightBits(60) == 0x2f6f7c87; case 13 => assert EightBits(61) == 0x58684c11;
    case 14 => assert EightBits(62) == 0xc1611dab; case 15 => assert EightBits(63) == 0xb6662d3d;
    case _ =>
  }

  lemma Check4(j: bv32)
    requires j < 16
    ensures Row4(j) == EightBits(64 | j)
  {
    match j
    case 0 => assert EightBits(64) == 0x76dc4190; case 1 => assert EightBits(65) == 0x01db7106;
    case 2 => assert EightBits(66) == 0x98d220bc; case 3 => assert EightBits(67) == 0xefd5102a;
    case 4 => assert EightBits(68) == 0x71b18589; case 5 => assert EightBits(69) == 0x06b6b51f;
    case 6 => assert EightBits(70) == 0x9fbfe4a5; case 7 => assert EightBits(71) == 0xe8b8d433;
    case 8 => assert EightBits(72) == 0x7807c9a2; case 9 => assert EightBits(73) == 0x0f00f934;
    case 10 => assert EightBits(74) == 0x9609a88e; case 11 => assert EightBits(75) == 0xe10e9818;
    case 12 => assert EightBits(76) == 0x7f6a0dbb; case 13 => assert EightBits(77) == 0x086d3d2d;
    case 14 => assert EightBits(78) == 0x91646c97; case 15 => assert EightBits(79) == 0xe6635c01;
    case _ =>
  }

  lemma Check5(j: bv32)
    requires j < 16
    ensures Row5(j) == EightBits(80 | j)
  {
    match j
    case 0 => assert EightBits(80) == 0x6b6b51f4; case 1 => assert EightBits(81) == 0x1c6c6162;
    case 2 => assert EightBits(82) == 0x856530d8; case 3 => assert EightBits(83) == 0xf262004e;
    case 4 => assert EightBits(84) == 0x6c0695ed; case 5 => assert EightBits(85) == 0x1b01a57b;
    case 6 => assert EightBits(86) == 0x8208f4c1; case 7 => assert EightBits(87) == 0xf50fc457;
    case 8 => assert EightBits(88) == 0x65b0d9c6; case 9 => assert EightBits(89) == 0x12b7e950;
    case 10 => assert EightBits(90) == 0x8bbeb8ea; case 11 => assert EightBits(91) == 0xfcb9887c;
    case 12 => assert EightBits(92) == 0x62dd1ddf; case 13 => assert EightBits(93) == 0x15da2d49;
    case 14 => assert EightBits(94) == 0x8cd37cf3; case 15 => assert EightBits(95) == 0xfbd44c65;
    case _ =>
  }

  lemma Check6(j: bv32)
    requires j < 16
    ensures Row6(j) == EightBits(96 | j)
  {
    match j
    case 0 => assert EightBits(96) == 0x4db26158; case 1 => assert EightBits(97) == 0x3ab551ce;
    case 2 => assert EightBits(98) == 0xa3bc0074; case 3 => assert EightBits(99) == 0xd4bb30e2;
    case 4 => assert EightBits(100) == 0x4adfa541; case 5 => assert EightBits(101) == 0x3dd895d7;
    case 6 => assert EightBits(102) == 0xa4d1c46d; case 7 => assert EightBits(103) == 0xd3d6f4fb;
    case 8 => assert EightBits(104) == 0x4369e96a; case 9 => assert EightBits(105) == 0x346ed9fc;
    case 10 => assert EightBits(106) == 0xad678846; case 11 => assert EightBits(107) == 0xda60b8d0;
    case 12 => assert EightBits(108) == 0x44042d73; case 13 => assert EightBits(109) == 0x33031de5;
    case 14 => assert EightBits(110) == 0xaa0a4c5f; case 15 => assert EightBits(111) == 0xdd0d7cc9;
    case _ =>
  }

  lemma Check7(j: bv32)
    requires j < 16
    ensures Row7(j) == EightBits(112 | j)
  {
    match j
    case 0 => assert EightBits(112) == 0x5005713c; case 1 => assert EightBits(113) == 0x270241aa;
    case 2 => assert EightBits(114) == 0xbe0b1010; case 3 => assert EightBits(115) == 0xc90c2086;
    case 4 => assert EightBits(116) == 0x5768b525; case 5 => assert EightBits(117) == 0x206f85b3;
    case 6 => assert EightBits(118) == 0xb966d409; case 7 => assert EightBits(119) == 0xce61e49f;
    case 8 => assert EightBits(120) == 0x5edef90e; case 9 => assert EightBits(121) == 0x29d9c998;
    case 10 => assert EightBits(122) == 0xb0d09822; case 11 => assert EightBits(123) == 0xc7d7a8b4;
    case 12 => assert EightBits(124) == 0x59b33d17; case 13 => assert EightBits(125) == 0x2eb40d81;
    case 14 => assert EightBits(126) == 0xb7bd5c3b; case 15 => assert EightBits(127) == 0xc0ba6cad;
    case _ =>
  }

  lemma Check8(j: bv32)
    requires j < 16
    ensures Row8(j) == EightBits(128 | j)
  {
    match j
    case 0 => assert EightBits(128) == 0xedb88320; case 1 => assert EightBits(129) == 0x9abfb3b6;
    case 2 => assert EightBits(130) == 0x03b6e20c; case 3 => assert EightBits(131) == 0x74b1d29a;
    case 4 => assert EightBits(132) == 0xead54739; case 5 => assert EightBits(133) == 0x9dd277af;
    case 6 => assert EightBits(134) == 0x04db2615; case 7 => assert EightBits(135) == 0x73dc1683;
    case 8 => assert EightBits(136) == 0xe3630b12; case 9 => assert EightBits(137) == 0x94643b84;
    case 10 => assert EightBits(138) == 0x0d6d6a3e; case 11 => assert EightBits(139) == 0x7a6a5aa8;
    case 12 => assert EightBits(140) == 0xe40ecf0b; case 13 => assert EightBits(141) == 0x9309ff9d;
    case 14 => assert EightBits(142) == 0x0a00ae27; case 15 => assert EightBits(143) == 0x7d079eb1;
    case _ =>
  }

  lemma Check9(j: bv32)
    requires j < 16
    ensures Row9(j) == EightBits(144 | j)
  {
    match j
    case 0 => assert EightBits(144) == 0xf00f9344; case 1 => assert EightBits(145) == 0x8708a3d2;
    case 2 => assert EightBits(146) == 0x1e01f268; case 3 => assert EightBits(147) == 0x6906c2fe;
    case 4 => assert EightBits(148) == 0xf762575d; case 5 => assert EightBits(149) == 0x806567cb;
    case 6 => assert EightBits(150) == 0x196c3671; case 7 => assert EightBits(151) == 0x6e6b06e7;
    case 8 => assert EightBits(152) == 0xfed41b76; case 9 => assert EightBits(153) == 0x89d32be0;
    case 10 => assert EightBits(154) == 0x10da7a5a; case 11 => assert EightBits(155) == 0x67dd4acc;
    case 12 => assert EightBits(156) == 0xf9b9df6f; case 13 => assert EightBits(157) == 0x8ebeeff9;
    case 14 => assert EightBits(158) == 0x17b7be43; case 15 => assert EightBits(159) == 0x60b08ed5;
    case _ =>
  }

  lemma CheckA(j: bv32)
    requires j < 16
    ensures RowA(j) == EightBits(160 | j)
  {
    match j
    case 0 => assert EightBits(160) == 0xd6d6a3e8; case 1 => assert EightBits(161) == 0xa1d1937e;
    case 2 => assert EightBits(162) == 0x38d8c2c4; case 3 => assert EightBits(163) == 0x4fdff252;
    case 4 => assert EightBits(164) == 0xd1bb67f1; case 5 => assert EightBits(165) == 0xa6bc5767;
    case 6 => assert EightBits(166) == 0x3fb506dd; case 7 => assert EightBits(167) == 0x48b2364b;
    case 8 => assert EightBits(168) == 0xd80d2bda; case 9 => assert EightBits(169) == 0xaf0a1b4c;
    case 10 => assert EightBits(170) == 0x36034af6; case 11 => assert EightBits(171) == 0x41047a60;
    case 12 => assert EightBits(172) == 0xdf60efc3; case 13 => assert EightBits(173) == 0xa867df55;
    case 14 => assert EightBits(174) == 0x316e8eef; case 15 => assert EightBits(175) == 0x4669be79;
    case _ =>
  }

  lemma CheckB(j: bv32)
    requires j < 16
    ensures RowB(j) == EightBits(176 | j)
  {
    match j
    case 0 => assert EightBits(176) == 0xcb61b38c; case 1 => assert EightBits(177) == 0xbc66831a;
    case 2 => assert EightBits(178) == 0x256fd2a0; case 3 => assert EightBits(179) == 0x5268e236;
    case 4 => assert EightBits(180) == 0xcc0c7795; case 5 => assert EightBits(181) == 0xbb0b4703;
    case 6 => assert EightBits(182) == 0x220216b9; case 7 => assert EightBits(183) == 0x5505262f;
    case 8 => assert EightBits(184) == 0xc5ba3bbe; case 9 => assert EightBits(185) == 0xb2bd0b28;
    case 10 => assert EightBits(186) == 0x2bb45a92; case 11 => assert EightBits(187) == 0x5cb36a04;
    case 12 => assert EightBits(188) == 0xc2d7ffa7; case 13 => assert EightBits(189) == 0xb5d0cf31;
    case 14 => assert EightBits(190) == 0x2cd99e8b; case 15 => assert EightBits(191) == 0x5bdeae1d;
    case _ =>
  }

  lemma CheckC(j: bv32)
    requires j < 16
    ensures RowC(j) == EightBits(192 | j)
  {
    match j
    case 0 => assert EightBits(192) == 0x9b64c2b0; case 1 => assert EightBits(193) == 0xec63f226;
    case 2 => assert EightBits(194) == 0x756aa39c; case 3 => assert EightBits(195) == 0x026d930a;
    case 4 => assert EightBits(196) == 0x9c0906a9; case 5 => assert EightBits(197) == 0xeb0e363f;
    case 6 => assert EightBits(198) == 0x72076785; case 7 => assert EightBits(199) == 0x05005713;
    case 8 => assert EightBits(200) == 0x95bf4a82; case 9 => assert EightBits(201) == 0xe2b87a14;
    case 10 => assert EightBits(202) == 0x7bb12bae; case 11 => assert EightBits(203) == 0x0cb61b38;
    case 12 => assert EightBits(204) == 0x92d28e9b; case 13 => assert EightBits(205) == 0xe5d5be0d;
    case 14 => assert EightBits(206) == 0x7cdcefb7; case 15 => assert EightBits(207) == 0x0bdbdf21;
    case _ =>
  }

  lemma CheckD(j: bv32)
    requires j < 16
    ensures RowD(j) == EightBits(208 | j)
  {
    match j
    case 0 => assert EightBits(208) == 0x86d3d2d4; case 1 => assert EightBits(209) == 0xf1d4e242;
    case 2 => assert EightBits(210) == 0x68ddb3f8; case 3 => assert EightBits(211) == 0x1fda836e;
    case 4 => assert EightBits(212) == 0x81be16cd; case 5 => assert EightBits(213) == 0xf6b9265b;
    case 6 => assert EightBits(214) == 0x6fb077e1; case 7 => assert EightBits(215) == 0x18b74777;
    case 8 => assert EightBits(216) == 0x88085ae6; case 9 => assert EightBits(217) == 0xff0f6a70;
    case 10 => assert EightBits(218) == 0x66063bca; case 11 => assert EightBits(219) == 0x11010b5c;
    case 12 => assert EightBits(220) == 0x8f659eff; case 13 => assert EightBits(221) == 0xf862ae69;
    case 14 => assert EightBits(222) == 0x616bffd3; case 15 => assert EightBits(223) == 0x166ccf45;
    case _ =>
  }

  lemma CheckE(j: bv32)
    requires j < 16
    ensures RowE(j) == EightBits(224 | j)
  {
    match j
    case 0 => assert EightBits(224) == 0xa00ae278; case 1 => assert EightBits(225) == 0xd70dd2ee;
    case 2 => assert EightBits(226) == 0x4e048354; case 3 => assert EightBits(227) == 0x3903b3c2;
    case 4 => assert EightBits(228) == 0xa7672661; case 5 => assert EightBits(229) == 0xd06016f7;
    case 6 => assert EightBits(230) == 0x4969474d; case 7 => assert EightBits(231) == 0x3e6e77db;
    case 8 => assert EightBits(232) == 0xaed16a4a; case 9 => assert EightBits(233) == 0xd9d65adc;
    case 10 => assert EightBits(234) == 0x40df0b66; case 11 => assert EightBits(235) == 0x37d83bf0;
    case 12 => assert EightBits(236) == 0xa9bcae53; case 13 => assert EightBits(237) == 0xdebb9ec5;
    case 14 => assert EightBits(238) == 0x47b2cf7f; case 15 => assert EightBits(239) == 0x30b5ffe9;
    case _ =>
  }

  lemma CheckF(j: bv32)
    requires j < 16
    ensures RowF(j) == EightBits(240 | j)
  {
    match j
    case 0 => assert EightBits(240) == 0xbdbdf21c; case 1 => assert EightBits(241) == 0xcabac28a;
    case 2 => assert EightBits(242) == 0x53b39330; case 3 => assert EightBits(243) == 0x24b4a3a6;
    case 4 => assert EightBits(244) == 0xbad03605; case 5 => assert EightBits(245) == 0xcdd70693;
    case 6 => assert EightBits(246) == 0x54de5729; case 7 => assert EightBits(247) == 0x23d967bf;
    case 8 => assert EightBits(248) == 0xb3667a2e; case 9 => assert EightBits(249) == 0xc4614ab8;
    case 10 => assert EightBits(250) == 0x5d681b02; case 11 => assert EightBits(251) == 0x2a6f2b94;
    case 12 => assert EightBits(252) == 0xb40bbe37; case 13 => assert EightBits(253) == 0xc30c8ea1;
    case 14 => assert EightBits(254) == 0x5a05df1b; case 15 => assert EightBits(255) == 0x2d02ef8d;
    case _ =>
  }

  lemma Nibbles(i: bv32)
    requires i <= 0xff
    ensures i >> 4 < 16 && i & 15 < 16
    ensures i >> 4 == 0 ==> i == 0 | (i & 15)
    ensures i >> 4 == 1 ==> i == 16 | (i & 15)
    ensures i >> 4 == 2 ==> i == 32 | (i & 15)
    ensures i >> 4 == 3 ==> i == 48 | (i & 15)
    ensures i >> 4 == 4 ==> i == 64 | (i & 15)
    ensures i >> 4 == 5 ==> i == 80 | (i & 15)
    ensures i >> 4 == 6 ==> i == 96 | (i & 15)
    ensures i >> 4 == 7 ==> i == 112 | (i & 15)
    ensures i >> 4 == 8 ==> i == 128 | (i & 15)
    ensures i >> 4 == 9 ==> i == 144 | (i & 15)
    ensures i >> 4 == 10 ==> i == 160 | (i & 15)
    ensures i >> 4 == 11 ==> i == 176 | (i & 15)
    ensures i >> 4 == 12 ==> i == 192 | (i & 15)
    ensures i >> 4 == 13 ==> i == 208 | (i & 15)
    ensures i >> 4 == 14 ==> i == 224 | (i & 15)
    ensures i >> 4 == 15 ==> i == 240 | (i & 15)
  {
  }

  /** Entry `i` of the table is eight reference steps from `i`. */
  lemma TableEntry(i: bv32)
    requires i <= 0xff
    ensures Table(i) == EightBits(i)
  {
    hide EightBits;
    Nibbles(i);
    match i >> 4
    case 0 => Check0(i & 15); case 1 => Check1(i & 15); case 2 => Check2(i & 15); case 3 => Check3(i & 15);
    case 4 => Check4(i & 15); case 5 => Check5(i & 15); case 6 => Check6(i & 15); case 7 => Check7(i & 15);
    case 8 => Check8(i & 15); case 9 => Check9(i & 15); case 10 => CheckA(i & 15); case 11 => CheckB(i & 15);
    case 12 => CheckC(i & 15); case 13 => CheckD(i & 15); case 14 => CheckE(i & 15); case 15 => CheckF(i & 15);
    case _ =>
  }

  // ----- one byte at a time -----

  lemma ShiftXor(x: bv32, y: bv32)
    ensures (x ^ y) >> 1 == (x >> 1) ^ (y >> 1)
  {
  }

  lemma LowXor(x: bv32, y: bv32)
    ensures (x ^ y) & 1 == (x & 1) ^ (y & 1)
    ensures x & 1 == 0 || x & 1 == 1
  {
  }

  lemma Cancel(x: bv32, y: bv32, p: bv32)
    ensures (x ^ p) ^ (y ^ p) == x ^ y
    ensures (x ^ p) ^ y == (x ^ y) ^ p
    ensures x ^ (y ^ p) == (x ^ y) ^ p
  {
  }

  /** A CRC step is linear over exclusive-or. */
  lemma Linear(x: bv32, y: bv32)
    ensures Bit(Xor(x, y)) == Xor(Bit(x), Bit(y))
  {
    ShiftXor(x, y);
    LowXor(x, y);
    LowXor(y, x);
    Cancel(x >> 1, y >> 1, 0xedb88320);
  }

  lemma EightLinear(x: bv32, y: bv32)
    ensures EightBits(Xor(x, y)) == Xor(EightBits(x), EightBits(y))
  {
    hide Bit, Xor;
    Linear(x, y);
    Linear(Bit(x), Bit(y));
    Linear(Bit(Bit(x)), Bit(Bit(y)));
    var x3, y3 := Bit(Bit(Bit(x))), Bit(Bit(Bit(y)));
    Linear(x3, y3);
    Linear(Bit(x3), Bit(y3));
    Linear(Bit(Bit(x3)), Bit(Bit(y3)));
    var x6, y6 := Bit(Bit(Bit(x3))), Bit(Bit(Bit(y3)));
    Linear(x6, y6);
    Linear(Bit(x6), Bit(y6));
  }

  lemma Even(x: bv32)
    requires x & 1 == 0
    ensures Bit(x) == x >> 1
  {
  }

  lemma HighBits(h: bv32)
    requires h & 0xff == 0
    ensures EightBits(h) == DropByte(h)
  {
    Even(h);
    Even(h >> 1);
    Even(h >> 2);
    Even(h >> 3);
    Even(h >> 4);
    Even(h >> 5);
    Even(h >> 6);
    Even(h >> 7);
  }

  lemma Halves(x: bv32) returns (h: bv32)
    ensures h & 0xff == 0 && x == Xor(h, Byte(x)) && DropByte(h) == DropByte(x) && Byte(x) <= 0xff
  {
    h := x & 0xffffff00;
  }

  /** Eight steps at once: shift a byte out and look the rest up. */
  lemma ByteStep(x: bv32)
    ensures EightBits(x) == Xor(DropByte(x), Table(Byte(x)))
  {
    var h := Halves(x);
    hide Table, EightBits, Xor, Byte, DropByte;
    EightLinear(h, Byte(x));
    HighBits(h);
    TableEntry(Byte(x));
  }

  lemma DropIgnoresLow(r: bv32, c: bv8)
    ensures (r ^ (c as bv32)) >> 8 == r >> 8
  {
  }

  lemma DropIgnoresByte(r: bv32, b: u8)
    ensures DropByte(Xor(r, Word(b))) == DropByte(r)
  {
    DropIgnoresLow(r, b as bv8);
  }

  /** The loop over the stream computes the reference CRC of every byte string. */
  method Compute(stream: Bytes) returns (ret: bv32)
    ensures ret == Crc(stream)
  {
    hide Table, EightBits, Xor, Byte, DropByte, Word;
    ret := 0xffffffff;
    for i := 0 to |stream|
      invariant ret == Register(stream[..i])
    {
      var x := Xor(ret, Word(stream[i]));
      ByteStep(x);
      DropIgnoresByte(ret, stream[i]);
      assert stream[..i + 1][..i] == stream[..i];
      ret := Xor(DropByte(ret), Table(Byte(x)));
    }
    assert stream[..|stream|] == stream;
    ret := Xor(ret, 0xffffffff);
  }

  // ----- a known value -----

  lemma NextByte(s: Bytes, s': Bytes, b: u8, r: bv32, x: bv32, r': bv32)
    requires s' == s + [b] && Register(s) == r && Xor(r, Word(b)) == x && EightBits(x) == r'
    ensures Register(s') == r'
  {
    assert s'[..|s|] == s;
    hide EightBits, Xor, Word;
  }

  lemma Digit1()
    ensures Xor(0xffffffff, Word(49)) == 0xffffffce && EightBits(0xffffffce) == 0x7c231048
  {
  }

  lemma Digit2()
    ensures Xor(0x7c231048, Word(50)) == 0x7c23107a && EightBits(0x7c23107a) == 0xb0acbb32
  {
  }

  lemma Digit3()
    ensures Xor(0xb0acbb32, Word(51)) == 0xb0acbb01 && EightBits(0xb0acbb01) == 0x77b79c2d
  {
  }

  lemma Digit4()
    ensures Xor(0x77b79c2d, Word(52)) == 0x77b79c19 && EightBits(0x77b79c19) == 0x641c1f5c
  {
  }

  lemma Digit5()
    ensures Xor(0x641c1f5c, Word(53)) == 0x641c1f69 && EightBits(0x641c1f69) == 0x340ac5e3
  {
  }

  lemma Digit6()
    ensures Xor(0x340ac5e3, Word(54)) == 0x340ac5d5 && EightBits(0x340ac5d5) == 0xf68d2c9e
  {
  }

  lemma Digit7()
    ensures Xor(0xf68d2c9e, Word(55)) == 0xf68d2ca9 && EightBits(0xf68d2ca9) == 0xaffc9660
  {
  }

  lemma Digit8()
    ensures Xor(0xaffc9660, Word(56)) == 0xaffc9658 && EightBits(0xaffc9658) == 0x651f2550
  {
  }

  lemma Digit9()
    ensures Xor(0x651f2550, Word(57)) == 0x651f2569 && EightBits(0x651f2569) == 0x340bc6d9
  {
  }

  /** The check value of this CRC: that of the nine digits in ASCII. */
  lemma CheckValue()
    ensures Crc([49, 50, 51, 52, 53, 54, 55, 56, 57]) == 0xcbf43926
  {
    NoBytes();
    hide Register, EightBits, Word, Xor;
    Digit1();
    NextByte([], [49], 49, 0xffffffff, 0xffffffce, 0x7c231048);
    Digit2();
    NextByte([49], [49, 50], 50, 0x7c231048, 0x7c23107a, 0xb0acbb32);
    Digit3();
    NextByte([49, 50], [49, 50, 51], 51, 0xb0acbb32, 0xb0acbb01, 0x77b79c2d);
    Digit4();
    NextByte([49, 50, 51], [49, 50, 51, 52], 52, 0x77b79c2d, 0x77b79c19, 0x641c1f5c);
    Digit5();
    NextByte([49, 50, 51, 52], [49, 50, 51, 52, 53], 53, 0x641c1f5c, 0x641c1f69, 0x340ac5e3);
    Digit6();
    NextByte([49, 50, 51, 52, 53], [49, 50, 51, 52, 53, 54], 54, 0x340ac5e3, 0x340ac5d5, 0xf68d2c9e);
    Digit7();
    NextByte([49, 50, 51, 52, 53, 54], [49, 50, 51, 52, 53, 54, 55], 55, 0xf68d2c9e, 0xf68d2ca9, 0xaffc9660);
    Digit8();
    NextByte([49, 50, 51, 52, 53, 54, 55], [49, 50, 51, 52, 53, 54, 55, 56], 56, 0xaffc9660, 0xaffc9658, 0x651f2550);
    Digit9();
    NextByte([49, 50, 51, 52, 53, 54, 55, 56], [49, 50, 51, 52, 53, 54, 55, 56, 57], 57, 0x651f2550, 0x651f2569, 0x340bc6d9);
    Complement();
  }

  lemma NoBytes()
    ensures Register([]) == 0xffffffff
  {
  }

  lemma Complement()
    ensures Xor(0x340bc6d9, 0xffffffff) == 0xcbf43926
  {
  }
}
