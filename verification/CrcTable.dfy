// The lookup table of lib/crc.cc for the reflected CCITT polynomial, sixteen
// entries to a row: Entry(i) is element i of the source's array.
module CrcTable {

  function Row0(c: bv8): bv16 {
    if c == 0 then 0x0000 else if c == 1 then 0x1189 else if c == 2 then 0x2312 else if c == 3 then 0x329B else
    if c == 4 then 0x4624 else if c == 5 then 0x57AD else if c == 6 then 0x6536 else if c == 7 then 0x74BF else
    if c == 8 then 0x8C48 else if c == 9 then 0x9DC1 else if c == 10 then 0xAF5A else if c == 11 then 0xBED3 else
    if c == 12 then 0xCA6C else if c == 13 then 0xDBE5 else if c == 14 then 0xE97E else 0xF8F7
  }

  function Row1(c: bv8): bv16 {
    if c == 0 then 0x1081 else if c == 1 then 0x0108 else if c == 2 then 0x3393 else if c == 3 then 0x221A else
    if c == 4 then 0x56A5 else if c == 5 then 0x472C else if c == 6 then 0x75B7 else if c == 7 then 0x643E else
    if c == 8 then 0x9CC9 else if c == 9 then 0x8D40 else if c == 10 then 0xBFDB else if c == 11 then 0xAE52 else
    if c == 12 then 0xDAED else if c == 13 then 0xCB64 else if c == 14 then 0xF9FF else 0xE876
  }

  function Row2(c: bv8): bv16 {
    if c == 0 then 0x2102 else if c == 1 then 0x308B else if c == 2 then 0x0210 else if c == 3 then 0x1399 else
    if c == 4 then 0x6726 else if c == 5 then 0x76AF else if c == 6 then 0x4434 else if c == 7 then 0x55BD else
    if c == 8 then 0xAD4A else if c == 9 then 0xBCC3 else if c == 10 then 0x8E58 else if c == 11 then 0x9FD1 else
    if c == 12 then 0xEB6E else if c == 13 then 0xFAE7 else if c == 14 then 0xC87C else 0xD9F5
  }

  function Row3(c: bv8): bv16 {
    if c == 0 then 0x3183 else if c == 1 then 0x200A else if c == 2 then 0x1291 else if c == 3 then 0x0318 else
    if c == 4 then 0x77A7 else if c == 5 then 0x662E else if c == 6 then 0x54B5 else if c == 7 then 0x453C else
    if c == 8 then 0xBDCB else if c == 9 then 0xAC42 else if c == 10 then 0x9ED9 else if c == 11 then 0x8F50 else
    if c == 12 then 0xFBEF else if c == 13 then 0xEA66 else if c == 14 then 0xD8FD else 0xC974
  }

  function Row4(c: bv8): bv16 {
    if c == 0 then 0x4204 else if c == 1 then 0x538D else if c == 2 then 0x6116 else if c == 3 then 0x709F else
    if c == 4 then 0x0420 else if c == 5 then 0x15A9 else if c == 6 then 0x2732 else if c == 7 then 0x36BB else
    if c == 8 then 0xCE4C else if c == 9 then 0xDFC5 else if c == 10 then 0xED5E else if c == 11 then 0xFCD7 else
    if c == 12 then 0x8868 else if c == 13 then 0x99E1 else if c == 14 then 0xAB7A else 0xBAF3
  }

  function Row5(c: bv8): bv16 {
    if c == 0 then 0x5285 else if c == 1 then 0x430C else if c == 2 then 0x7197 else if c == 3 then 0x601E else
    if c == 4 then 0x14A1 else if c == 5 then 0x0528 else if c == 6 then 0x37B3 else if c == 7 then 0x263A else
    if c == 8 then 0xDECD else if c == 9 then 0xCF44 else if c == 10 then 0xFDDF else if c == 11 then 0xEC56 else
    if c == 12 then 0x98E9 else if c == 13 then 0x8960 else if c == 14 then 0xBBFB else 0xAA72
  }

  function Row6(c: bv8): bv16 {
    if c == 0 then 0x6306 else if c == 1 then 0x728F else if c == 2 then 0x4014 else if c == 3 then 0x519D else
    if c == 4 then 0x2522 else if c == 5 then 0x34AB else if c == 6 then 0x0630 else if c == 7 then 0x17B9 else
    if c == 8 then 0xEF4E else if c == 9 then 0xFEC7 else if c == 10 then 0xCC5C else if c == 11 then 0xDDD5 else
    if c == 12 then 0xA96A else if c == 13 then 0xB8E3 else if c == 14 then 0x8A78 else 0x9BF1
  }

  function Row7(c: bv8): bv16 {
    if c == 0 then 0x7387 else if c == 1 then 0x620E else if c == 2 then 0x5095 else if c == 3 then 0x411C else
    if c == 4 then 0x35A3 else if c == 5 then 0x242A else if c == 6 then 0x16B1 else if c == 7 then 0x0738 else
    if c == 8 then 0xFFCF else if c == 9 then 0xEE46 else if c == 10 then 0xDCDD else if c == 11 then 0xCD54 else
    if c == 12 then 0xB9EB else if c == 13 then 0xA862 else if c == 14 then 0x9AF9 else 0x8B70
  }

  function Row8(c: bv8): bv16 {
    if c == 0 then 0x8408 else if c == 1 then 0x9581 else if c == 2 then 0xA71A else if c == 3 then 0xB693 else
    if c == 4 then 0xC22C else if c == 5 then 0xD3A5 else if c == 6 then 0xE13E else if c == 7 then 0xF0B7 else
    if c == 8 then 0x0840 else if c == 9 then 0x19C9 else if c == 10 then 0x2B52 else if c == 11 then 0x3ADB else
    if c == 12 then 0x4E64 else if c == 13 then 0x5FED else if c == 14 then 0x6D76 else 0x7CFF
  }

  function Row9(c: bv8): bv16 {
    if c == 0 then 0x9489 else if c == 1 then 0x8500 else if c == 2 then 0xB79B else if c == 3 then 0xA612 else
    if c == 4 then 0xD2AD else if c == 5 then 0xC324 else if c == 6 then 0xF1BF else if c == 7 then 0xE036 else
    if c == 8 then 0x18C1 else if c == 9 then 0x0948 else if c == 10 then 0x3BD3 else if c == 11 then 0x2A5A else
    if c == 12 then 0x5EE5 else if c == 13 then 0x4F6C else if c == 14 then 0x7DF7 else 0x6C7E
  }

  function RowA(c: bv8): bv16 {
    if c == 0 then 0xA50A else if c == 1 then 0xB483 else if c == 2 then 0x8618 else if c == 3 then 0x9791 else
    if c == 4 then 0xE32E else if c == 5 then 0xF2A7 else if c == 6 then 0xC03C else if c == 7 then 0xD1B5 else
    if c == 8 then 0x2942 else if c == 9 then 0x38CB else if c == 10 then 0x0A50 else if c == 11 then 0x1BD9 else
    if c == 12 then 0x6F66 else if c == 13 then 0x7EEF else if c == 14 then 0x4C74 else 0x5DFD
  }

  function RowB(c: bv8): bv16 {
    if c == 0 then 0xB58B else if c == 1 then 0xA402 else if c == 2 then 0x9699 else if c == 3 then 0x8710 else
    if c == 4 then 0xF3AF else if c == 5 then 0xE226 else if c == 6 then 0xD0BD else if c == 7 then 0xC134 else
    if c == 8 then 0x39C3 else if c == 9 then 0x284A else if c == 10 then 0x1AD1 else if c == 11 then 0x0B58 else
    if c == 12 then 0x7FE7 else if c == 13 then 0x6E6E else if c == 14 then 0x5CF5 else 0x4D7C
  }

  function RowC(c: bv8): bv16 {
    if c == 0 then 0xC60C else if c == 1 then 0xD785 else if c == 2 then 0xE51E else if c == 3 then 0xF497 else
    if c == 4 then 0x8028 else if c == 5 then 0x91A1 else if c == 6 then 0xA33A else if c == 7 then 0xB2B3 else
    if c == 8 then 0x4A44 else if c == 9 then 0x5BCD else if c == 10 then 0x6956 else if c == 11 then 0x78DF else
    if c == 12 then 0x0C60 else if c == 13 then 0x1DE9 else if c == 14 then 0x2F72 else 0x3EFB
  }

  function RowD(c: bv8): bv16 {
    if c == 0 then 0xD68D else if c == 1 then 0xC704 else if c == 2 then 0xF59F else if c == 3 then 0xE416 else
    if c == 4 then 0x90A9 else if c == 5 then 0x8120 else if c == 6 then 0xB3BB else if c == 7 then 0xA232 else
    if c == 8 then 0x5AC5 else if c == 9 then 0x4B4C else if c == 10 then 0x79D7 else if c == 11 then 0x685E else
    if c == 12 then 0x1CE1 else if c == 13 then 0x0D68 else if c == 14 then 0x3FF3 else 0x2E7A
  }

  function RowE(c: bv8): bv16 {
    if c == 0 then 0xE70E else if c == 1 then 0xF687 else if c == 2 then 0xC41C else if c == 3 then 0xD595 else
    if c == 4 then 0xA12A else if c == 5 then 0xB0A3 else if c == 6 then 0x8238 else if c == 7 then 0x93B1 else
    if c == 8 then 0x6B46 else if c == 9 then 0x7ACF else if c == 10 then 0x4854 else if c == 11 then 0x59DD else
    if c == 12 then 0x2D62 else if c == 13 then 0x3CEB else if c == 14 then 0x0E70 else 0x1FF9
  }

  function RowF(c: bv8): bv16 {
    if c == 0 then 0xF78F else if c == 1 then 0xE606 else if c == 2 then 0xD49D else if c == 3 then 0xC514 else
    if c == 4 then 0xB1AB else if c == 5 then 0xA022 else if c == 6 then 0x92B9 else if c == 7 then 0x8330 else
    if c == 8 then 0x7BC7 else if c == 9 then 0x6A4E else if c == 10 then 0x58D5 else if c == 11 then 0x495C else
    if c == 12 then 0x3DE3 else if c == 13 then 0x2C6A else if c == 14 then 0x1EF1 else 0x0F78
  }

  function Entry(i: bv8): bv16 {
    var c := i & 0x0F;
    match i >> 4
    case 0 => Row0(c)
    case 1 => Row1(c)
    case 2 => Row2(c)
    case 3 => Row3(c)
    case 4 => Row4(c)
    case 5 => Row5(c)
    case 6 => Row6(c)
    case 7 => Row7(c)
    case 8 => Row8(c)
    case 9 => Row9(c)
    case 10 => RowA(c)
    case 11 => RowB(c)
    case 12 => RowC(c)
    case 13 => RowD(c)
    case 14 => RowE(c)
    case _ => RowF(c)
  }
}
