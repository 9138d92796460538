// The lookup table of lib/crc.cc for the Castagnoli polynomial: Entry(i) is
// element i of the source's array.
module Crc32cTable {

  function Row0(c: bv8): bv32 {
    if c == 0 then 0x00000000 else if c == 1 then 0xF26B8303 else if c == 2 then 0xE13B70F7 else
    if c == 3 then 0x1350F3F4 else if c == 4 then 0xC79A971F else if c == 5 then 0x35F1141C else
    if c == 6 then 0x26A1E7E8 else if c == 7 then 0xD4CA64EB else if c == 8 then 0x8AD958CF else
    if c == 9 then 0x78B2DBCC else if c == 10 then 0x6BE22838 else if c == 11 then 0x9989AB3B else
    if c == 12 then 0x4D43CFD0 else if c == 13 then 0xBF284CD3 else if c == 14 then 0xAC78BF27 else
    0x5E133C24
  }

  function Row1(c: bv8): bv32 {
    if c == 0 then 0x105EC76F else if c == 1 then 0xE235446C else if c == 2 then 0xF165B798 else
    if c == 3 then 0x030E349B else if c == 4 then 0xD7C45070 else if c == 5 then 0x25AFD373 else
    if c == 6 then 0x36FF2087 else if c == 7 then 0xC494A384 else if c == 8 then 0x9A879FA0 else
    if c == 9 then 0x68EC1CA3 else if c == 10 then 0x7BBCEF57 else if c == 11 then 0x89D76C54 else
    if c == 12 then 0x5D1D08BF else if c == 13 then 0xAF768BBC else if c == 14 then 0xBC267848 else
    0x4E4DFB4B
  }

  function Row2(c: bv8): bv32 {
    if c == 0 then 0x20BD8EDE else if c == 1 then 0xD2D60DDD else if c == 2 then 0xC186FE29 else
    if c == 3 then 0x33ED7D2A else if c == 4 then 0xE72719C1 else if c == 5 then 0x154C9AC2 else
    if c == 6 then 0x061C6936 else if c == 7 then 0xF477EA35 else if c == 8 then 0xAA64D611 else
    if c == 9 then 0x580F5512 else if c == 10 then 0x4B5FA6E6 else if c == 11 then 0xB93425E5 else
    if c == 12 then 0x6DFE410E else if c == 13 then 0x9F95C20D else if c == 14 then 0x8CC531F9 else
    0x7EAEB2FA
  }

  function Row3(c: bv8): bv32 {
    if c == 0 then 0x30E349B1 else if c == 1 then 0xC288CAB2 else if c == 2 then 0xD1D83946 else
    if c == 3 then 0x23B3BA45 else if c == 4 then 0xF779DEAE else if c == 5 then 0x05125DAD else
    if c == 6 then 0x1642AE59 else if c == 7 then 0xE4292D5A else if c == 8 then 0xBA3A117E else
    if c == 9 then 0x4851927D else if c == 10 then 0x5B016189 else if c == 11 then 0xA96AE28A else
    if c == 12 then 0x7DA08661 else if c == 13 then 0x8FCB0562 else if c == 14 then 0x9C9BF696 else
    0x6EF07595
  }

  function Row4(c: bv8): bv32 {
    if c == 0 then 0x417B1DBC else if c == 1 then 0xB3109EBF else if c == 2 then 0xA0406D4B else
    if c == 3 then 0x522BEE48 else if c == 4 then 0x86E18AA3 else if c == 5 then 0x748A09A0 else
    if c == 6 then 0x67DAFA54 else if c == 7 then 0x95B17957 else if c == 8 then 0xCBA24573 else
    if c == 9 then 0x39C9C670 else if c == 10 then 0x2A993584 else if c == 11 then 0xD8F2B687 else
    if c == 12 then 0x0C38D26C else if c == 13 then 0xFE53516F else if c == 14 then 0xED03A29B else
    0x1F682198
  }

  function Row5(c: bv8): bv32 {
    if c == 0 then 0x5125DAD3 else if c == 1 then 0xA34E59D0 else if c == 2 then 0xB01EAA24 else
    if c == 3 then 0x42752927 else if c == 4 then 0x96BF4DCC else if c == 5 then 0x64D4CECF else
    if c == 6 then 0x77843D3B else if c == 7 then 0x85EFBE38 else if c == 8 then 0xDBFC821C else
    if c == 9 then 0x2997011F else if c == 10 then 0x3AC7F2EB else if c == 11 then 0xC8AC71E8 else
    if c == 12 then 0x1C661503 else if c == 13 then 0xEE0D9600 else if c == 14 then 0xFD5D65F4 else
    0x0F36E6F7
  }

  function Row6(c: bv8): bv32 {
    if c == 0 then 0x61C69362 else if c == 1 then 0x93AD1061 else if c == 2 then 0x80FDE395 else
    if c == 3 then 0x72966096 else if c == 4 then 0xA65C047D else if c == 5 then 0x5437877E else
    if c == 6 then 0x4767748A else if c == 7 then 0xB50CF789 else if c == 8 then 0xEB1FCBAD else
    if c == 9 then 0x197448AE else if c == 10 then 0x0A24BB5A else if c == 11 then 0xF84F3859 else
    if c == 12 then 0x2C855CB2 else if c == 13 then 0xDEEEDFB1 else if c == 14 then 0xCDBE2C45 else
    0x3FD5AF46
  }

  function Row7(c: bv8): bv32 {
    if c == 0 then 0x7198540D else if c == 1 then 0x83F3D70E else if c == 2 then 0x90A324FA else
    if c == 3 then 0x62C8A7F9 else if c == 4 then 0xB602C312 else if c == 5 then 0x44694011 else
    if c == 6 then 0x5739B3E5 else if c == 7 then 0xA55230E6 else if c == 8 then 0xFB410CC2 else
    if c == 9 then 0x092A8FC1 else if c == 10 then 0x1A7A7C35 else if c == 11 then 0xE811FF36 else
    if c == 12 then 0x3CDB9BDD else if c == 13 then 0xCEB018DE else if c == 14 then 0xDDE0EB2A else
    0x2F8B6829
  }

  function Row8(c: bv8): bv32 {
    if c == 0 then 0x82F63B78 else if c == 1 then 0x709DB87B else if c == 2 then 0x63CD4B8F else
    if c == 3 then 0x91A6C88C else if c == 4 then 0x456CAC67 else if c == 5 then 0xB7072F64 else
    if c == 6 then 0xA457DC90 else if c == 7 then 0x563C5F93 else if c == 8 then 0x082F63B7 else
    if c == 9 then 0xFA44E0B4 else if c == 10 then 0xE9141340 else if c == 11 then 0x1B7F9043 else
    if c == 12 then 0xCFB5F4A8 else if c == 13 then 0x3DDE77AB else if c == 14 then 0x2E8E845F else
    0xDCE5075C
  }

  function Row9(c: bv8): bv32 {
    if c == 0 then 0x92A8FC17 else if c == 1 then 0x60C37F14 else if c == 2 then 0x73938CE0 else
    if c == 3 then 0x81F80FE3 else if c == 4 then 0x55326B08 else if c == 5 then 0xA759E80B else
    if c == 6 then 0xB4091BFF else if c == 7 then 0x466298FC else if c == 8 then 0x1871A4D8 else
    if c == 9 then 0xEA1A27DB else if c == 10 then 0xF94AD42F else if c == 11 then 0x0B21572C else
    if c == 12 then 0xDFEB33C7 else if c == 13 then 0x2D80B0C4 else if c == 14 then 0x3ED04330 else
    0xCCBBC033
  }

  function RowA(c: bv8): bv32 {
    if c == 0 then 0xA24BB5A6 else if c == 1 then 0x502036A5 else if c == 2 then 0x4370C551 else
    if c == 3 then 0xB11B4652 else if c == 4 then 0x65D122B9 else if c == 5 then 0x97BAA1BA else
    if c == 6 then 0x84EA524E else if c == 7 then 0x7681D14D else if c == 8 then 0x2892ED69 else
    if c == 9 then 0xDAF96E6A else if c == 10 then 0xC9A99D9E else if c == 11 then 0x3BC21E9D else
    if c == 12 then 0xEF087A76 else if c == 13 then 0x1D63F975 else if c == 14 then 0x0E330A81 else
    0xFC588982
  }

  function RowB(c: bv8): bv32 {
    if c == 0 then 0xB21572C9 else if c == 1 then 0x407EF1CA else if c == 2 then 0x532E023E else
    if c == 3 then 0xA145813D else if c == 4 then 0x758FE5D6 else if c == 5 then 0x87E466D5 else
    if c == 6 then 0x94B49521 else if c == 7 then 0x66DF1622 else if c == 8 then 0x38CC2A06 else
    if c == 9 then 0xCAA7A905 else if c == 10 then 0xD9F75AF1 else if c == 11 then 0x2B9CD9F2 else
    if c == 12 then 0xFF56BD19 else if c == 13 then 0x0D3D3E1A else if c == 14 then 0x1E6DCDEE else
    0xEC064EED
  }

  function RowC(c: bv8): bv32 {
    if c == 0 then 0xC38D26C4 else if c == 1 then 0x31E6A5C7 else if c == 2 then 0x22B65633 else
    if c == 3 then 0xD0DDD530 else if c == 4 then 0x0417B1DB else if c == 5 then 0xF67C32D8 else
    if c == 6 then 0xE52CC12C else if c == 7 then 0x1747422F else if c == 8 then 0x49547E0B else
    if c == 9 then 0xBB3FFD08 else if c == 10 then 0xA86F0EFC else if c == 11 then 0x5A048DFF else
    if c == 12 then 0x8ECEE914 else if c == 13 then 0x7CA56A17 else if c == 14 then 0x6FF599E3 else
    0x9D9E1AE0
  }

  function RowD(c: bv8): bv32 {
    if c == 0 then 0xD3D3E1AB else if c == 1 then 0x21B862A8 else if c == 2 then 0x32E8915C else
    if c == 3 then 0xC083125F else if c == 4 then 0x144976B4 else if c == 5 then 0xE622F5B7 else
    if c == 6 then 0xF5720643 else if c == 7 then 0x07198540 else if c == 8 then 0x590AB964 else
    if c == 9 then 0xAB613A67 else if c == 10 then 0xB831C993 else if c == 11 then 0x4A5A4A90 else
    if c == 12 then 0x9E902E7B else if c == 13 then 0x6CFBAD78 else if c == 14 then 0x7FAB5E8C else
    0x8DC0DD8F
  }

  function RowE(c: bv8): bv32 {
    if c == 0 then 0xE330A81A else if c == 1 then 0x115B2B19 else if c == 2 then 0x020BD8ED else
    if c == 3 then 0xF0605BEE else if c == 4 then 0x24AA3F05 else if c == 5 then 0xD6C1BC06 else
    if c == 6 then 0xC5914FF2 else if c == 7 then 0x37FACCF1 else if c == 8 then 0x69E9F0D5 else
    if c == 9 then 0x9B8273D6 else if c == 10 then 0x88D28022 else if c == 11 then 0x7AB90321 else
    if c == 12 then 0xAE7367CA else if c == 13 then 0x5C18E4C9 else if c == 14 then 0x4F48173D else
    0xBD23943E
  }

  function RowF(c: bv8): bv32 {
    if c == 0 then 0xF36E6F75 else if c == 1 then 0x0105EC76 else if c == 2 then 0x12551F82 else
    if c == 3 then 0xE03E9C81 else if c == 4 then 0x34F4F86A else if c == 5 then 0xC69F7B69 else
    if c == 6 then 0xD5CF889D else if c == 7 then 0x27A40B9E else if c == 8 then 0x79B737BA else
    if c == 9 then 0x8BDCB4B9 else if c == 10 then 0x988C474D else if c == 11 then 0x6AE7C44E else
    if c == 12 then 0xBE2DA0A5 else if c == 13 then 0x4C4623A6 else if c == 14 then 0x5F16D052 else
    0xAD7D5351
  }

  function Entry(i: bv8): bv32 {
    var c := i & 0x0F;
    match i >> 4
    case 0 => Row0(c)
    case 1 => Row1(c)
    case 2 => Row2(c)
    case 3 => Row3(c)
    case 4 => Row4(c)
    case 5 => Row5(c)
    case 6 => Row6(c)
    case 7 => Row7(c)
    case 8 => Row8(c)
    case 9 => Row9(c)
    case 10 => RowA(c)
    case 11 => RowB(c)
    case 12 => RowC(c)
    case 13 => RowD(c)
    case 14 => RowE(c)
    case _ => RowF(c)
  }
}
