// The lookup table of lib/crc.cc for the CCITT polynomial, most significant bit
// first: Entry(i) is element i of the source's array.
module CrcMsbTable {

  function Row0(c: bv8): bv16 {
    if c == 0 then 0x0000 else if c == 1 then 0x1021 else if c == 2 then 0x2042 else if c == 3 then 0x3063 else
    if c == 4 then 0x4084 else if c == 5 then 0x50A5 else if c == 6 then 0x60C6 else if c == 7 then 0x70E7 else
    if c == 8 then 0x8108 else if c == 9 then 0x9129 else if c == 10 then 0xA14A else if c == 11 then 0xB16B else
    if c == 12 then 0xC18C else if c == 13 then 0xD1AD else if c == 14 then 0xE1CE else 0xF1EF
  }

  function Row1(c: bv8): bv16 {
    if c == 0 then 0x1231 else if c == 1 then 0x0210 else if c == 2 then 0x3273 else if c == 3 then 0x2252 else
    if c == 4 then 0x52B5 else if c == 5 then 0x4294 else if c == 6 then 0x72F7 else if c == 7 then 0x62D6 else
    if c == 8 then 0x9339 else if c == 9 then 0x8318 else if c == 10 then 0xB37B else if c == 11 then 0xA35A else
    if c == 12 then 0xD3BD else if c == 13 then 0xC39C else if c == 14 then 0xF3FF else 0xE3DE
  }

  function Row2(c: bv8): bv16 {
    if c == 0 then 0x2462 else if c == 1 then 0x3443 else if c == 2 then 0x0420 else if c == 3 then 0x1401 else
    if c == 4 then 0x64E6 else if c == 5 then 0x74C7 else if c == 6 then 0x44A4 else if c == 7 then 0x5485 else
    if c == 8 then 0xA56A else if c == 9 then 0xB54B else if c == 10 then 0x8528 else if c == 11 then 0x9509 else
    if c == 12 then 0xE5EE else if c == 13 then 0xF5CF else if c == 14 then 0xC5AC else 0xD58D
  }

  function Row3(c: bv8): bv16 {
    if c == 0 then 0x3653 else if c == 1 then 0x2672 else if c == 2 then 0x1611 else if c == 3 then 0x0630 else
    if c == 4 then 0x76D7 else if c == 5 then 0x66F6 else if c == 6 then 0x5695 else if c == 7 then 0x46B4 else
    if c == 8 then 0xB75B else if c == 9 then 0xA77A else if c == 10 then 0x9719 else if c == 11 then 0x8738 else
    if c == 12 then 0xF7DF else if c == 13 then 0xE7FE else if c == 14 then 0xD79D else 0xC7BC
  }

  function Row4(c: bv8): bv16 {
    if c == 0 then 0x48C4 else if c == 1 then 0x58E5 else if c == 2 then 0x6886 else if c == 3 then 0x78A7 else
    if c == 4 then 0x0840 else if c == 5 then 0x1861 else if c == 6 then 0x2802 else if c == 7 then 0x3823 else
    if c == 8 then 0xC9CC else if c == 9 then 0xD9ED else if c == 10 then 0xE98E else if c == 11 then 0xF9AF else
    if c == 12 then 0x8948 else if c == 13 then 0x9969 else if c == 14 then 0xA90A else 0xB92B
  }

  function Row5(c: bv8): bv16 {
    if c == 0 then 0x5AF5 else if c == 1 then 0x4AD4 else if c == 2 then 0x7AB7 else if c == 3 then 0x6A96 else
    if c == 4 then 0x1A71 else if c == 5 then 0x0A50 else if c == 6 then 0x3A33 else if c == 7 then 0x2A12 else
    if c == 8 then 0xDBFD else if c == 9 then 0xCBDC else if c == 10 then 0xFBBF else if c == 11 then 0xEB9E else
    if c == 12 then 0x9B79 else if c == 13 then 0x8B58 else if c == 14 then 0xBB3B else 0xAB1A
  }

  function Row6(c: bv8): bv16 {
    if c == 0 then 0x6CA6 else if c == 1 then 0x7C87 else if c == 2 then 0x4CE4 else if c == 3 then 0x5CC5 else
    if c == 4 then 0x2C22 else if c == 5 then 0x3C03 else if c == 6 then 0x0C60 else if c == 7 then 0x1C41 else
    if c == 8 then 0xEDAE else if c == 9 then 0xFD8F else if c == 10 then 0xCDEC else if c == 11 then 0xDDCD else
    if c == 12 then 0xAD2A else if c == 13 then 0xBD0B else if c == 14 then 0x8D68 else 0x9D49
  }

  function Row7(c: bv8): bv16 {
    if c == 0 then 0x7E97 else if c == 1 then 0x6EB6 else if c == 2 then 0x5ED5 else if c == 3 then 0x4EF4 else
    if c == 4 then 0x3E13 else if c == 5 then 0x2E32 else if c == 6 then 0x1E51 else if c == 7 then 0x0E70 else
    if c == 8 then 0xFF9F else if c == 9 then 0xEFBE else if c == 10 then 0xDFDD else if c == 11 then 0xCFFC else
    if c == 12 then 0xBF1B else if c == 13 then 0xAF3A else if c == 14 then 0x9F59 else 0x8F78
  }

  function Row8(c: bv8): bv16 {
    if c == 0 then 0x9188 else if c == 1 then 0x81A9 else if c == 2 then 0xB1CA else if c == 3 then 0xA1EB else
    if c == 4 then 0xD10C else if c == 5 then 0xC12D else if c == 6 then 0xF14E else if c == 7 then 0xE16F else
    if c == 8 then 0x1080 else if c == 9 then 0x00A1 else if c == 10 then 0x30C2 else if c == 11 then 0x20E3 else
    if c == 12 then 0x5004 else if c == 13 then 0x4025 else if c == 14 then 0x7046 else 0x6067
  }

  function Row9(c: bv8): bv16 {
    if c == 0 then 0x83B9 else if c == 1 then 0x9398 else if c == 2 then 0xA3FB else if c == 3 then 0xB3DA else
    if c == 4 then 0xC33D else if c == 5 then 0xD31C else if c == 6 then 0xE37F else if c == 7 then 0xF35E else
    if c == 8 then 0x02B1 else if c == 9 then 0x1290 else if c == 10 then 0x22F3 else if c == 11 then 0x32D2 else
    if c == 12 then 0x4235 else if c == 13 then 0x5214 else if c == 14 then 0x6277 else 0x7256
  }

  function RowA(c: bv8): bv16 {
    if c == 0 then 0xB5EA else if c == 1 then 0xA5CB else if c == 2 then 0x95A8 else if c == 3 then 0x8589 else
    if c == 4 then 0xF56E else if c == 5 then 0xE54F else if c == 6 then 0xD52C else if c == 7 then 0xC50D else
    if c == 8 then 0x34E2 else if c == 9 then 0x24C3 else if c == 10 then 0x14A0 else if c == 11 then 0x0481 else
    if c == 12 then 0x7466 else if c == 13 then 0x6447 else if c == 14 then 0x5424 else 0x4405
  }

  function RowB(c: bv8): bv16 {
    if c == 0 then 0xA7DB else if c == 1 then 0xB7FA else if c == 2 then 0x8799 else if c == 3 then 0x97B8 else
    if c == 4 then 0xE75F else if c == 5 then 0xF77E else if c == 6 then 0xC71D else if c == 7 then 0xD73C else
    if c == 8 then 0x26D3 else if c == 9 then 0x36F2 else if c == 10 then 0x0691 else if c == 11 then 0x16B0 else
    if c == 12 then 0x6657 else if c == 13 then 0x7676 else if c == 14 then 0x4615 else 0x5634
  }

  function RowC(c: bv8): bv16 {
    if c == 0 then 0xD94C else if c == 1 then 0xC96D else if c == 2 then 0xF90E else if c == 3 then 0xE92F else
    if c == 4 then 0x99C8 else if c == 5 then 0x89E9 else if c == 6 then 0xB98A else if c == 7 then 0xA9AB else
    if c == 8 then 0x5844 else if c == 9 then 0x4865 else if c == 10 then 0x7806 else if c == 11 then 0x6827 else
    if c == 12 then 0x18C0 else if c == 13 then 0x08E1 else if c == 14 then 0x3882 else 0x28A3
  }

  function RowD(c: bv8): bv16 {
    if c == 0 then 0xCB7D else if c == 1 then 0xDB5C else if c == 2 then 0xEB3F else if c == 3 then 0xFB1E else
    if c == 4 then 0x8BF9 else if c == 5 then 0x9BD8 else if c == 6 then 0xABBB else if c == 7 then 0xBB9A else
    if c == 8 then 0x4A75 else if c == 9 then 0x5A54 else if c == 10 then 0x6A37 else if c == 11 then 0x7A16 else
    if c == 12 then 0x0AF1 else if c == 13 then 0x1AD0 else if c == 14 then 0x2AB3 else 0x3A92
  }

  function RowE(c: bv8): bv16 {
    if c == 0 then 0xFD2E else if c == 1 then 0xED0F else if c == 2 then 0xDD6C else if c == 3 then 0xCD4D else
    if c == 4 then 0xBDAA else if c == 5 then 0xAD8B else if c == 6 then 0x9DE8 else if c == 7 then 0x8DC9 else
    if c == 8 then 0x7C26 else if c == 9 then 0x6C07 else if c == 10 then 0x5C64 else if c == 11 then 0x4C45 else
    if c == 12 then 0x3CA2 else if c == 13 then 0x2C83 else if c == 14 then 0x1CE0 else 0x0CC1
  }

  function RowF(c: bv8): bv16 {
    if c == 0 then 0xEF1F else if c == 1 then 0xFF3E else if c == 2 then 0xCF5D else if c == 3 then 0xDF7C else
    if c == 4 then 0xAF9B else if c == 5 then 0xBFBA else if c == 6 then 0x8FD9 else if c == 7 then 0x9FF8 else
    if c == 8 then 0x6E17 else if c == 9 then 0x7E36 else if c == 10 then 0x4E55 else if c == 11 then 0x5E74 else
    if c == 12 then 0x2E93 else if c == 13 then 0x3EB2 else if c == 14 then 0x0ED1 else 0x1EF0
  }

  function Entry(i: bv8): bv16 {
    var c := i & 0x0F;
    match i >> 4
    case 0 => Row0(c)
    case 1 => Row1(c)
    case 2 => Row2(c)
    case 3 => Row3(c)
    case 4 => Row4(c)
    case 5 => Row5(c)
    case 6 => Row6(c)
    case 7 => Row7(c)
    case 8 => Row8(c)
    case 9 => Row9(c)
    case 10 => RowA(c)
    case 11 => RowB(c)
    case 12 => RowC(c)
    case 13 => RowD(c)
    case 14 => RowE(c)
    case _ => RowF(c)
  }
}
