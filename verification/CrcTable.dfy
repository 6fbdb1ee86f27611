/** The lookup table of the CRC-32 (Common/Kernel/Disk/Fs/Crc32.c), and the bit steps it stands for. */
module CrcTable {

  /** The 32-bit register of the CRC. */
  datatype Register = Register(bits: bv32)

  const ZERO := Register(0)

  function Xor(a: Register, b: Register): Register { Register(a.bits ^ b.bits) }
  function Half(c: Register): Register { Register(c.bits >> 1) }
  predicate Odd(c: Register) { c.bits & 1 == 1 }

  /** The polynomial 04C11DB7h, lowest bit first. */
  function Poly(b: bool): Register { if b then Register(0xEDB88320) else ZERO }

  lemma PolynomialIsReflected(i: bv32)
    requires i < 32
    ensures ((0x04C11DB7 as bv32) >> i) & 1 == (Poly(true).bits >> (31 - i)) & 1
  {
  }

  function BitStep(c: Register): Register { Xor(Half(c), Poly(Odd(c))) }

  function EightSteps(c: Register): Register {
    BitStep(BitStep(BitStep(BitStep(BitStep(BitStep(BitStep(BitStep(c))))))))
  }

  function Pick(i: bv8, v0: bv32, v1: bv32, v2: bv32, v3: bv32, v4: bv32, v5: bv32, v6: bv32, v7: bv32): bv32 {
    var k := i & 7;
    if k == 0 then v0 else if k == 1 then v1 else if k == 2 then v2 else if k == 3 then v3
    else if k == 4 then v4 else if k == 5 then v5 else if k == 6 then v6 else v7
  }

  /** The table, eight entries a row. */
  function Crc32Lut(i: bv8): bv32 {
    if i < 0x08 then
      Pick(i, 0x00000000, 0x77073096, 0xEE0E612C, 0x990951BA, 0x076DC419, 0x706AF48F, 0xE963A535, 0x9E6495A3)
    else if i < 0x10 then
      Pick(i, 0x0EDB8832, 0x79DCB8A4, 0xE0D5E91E, 0x97D2D988, 0x09B64C2B, 0x7EB17CBD, 0xE7B82D07, 0x90BF1D91)
    else if i < 0x18 then
      Pick(i, 0x1DB71064, 0x6AB020F2, 0xF3B97148, 0x84BE41DE, 0x1ADAD47D, 0x6DDDE4EB, 0xF4D4B551, 0x83D385C7)
    else if i < 0x20 then
      Pick(i, 0x136C9856, 0x646BA8C0, 0xFD62F97A, 0x8A65C9EC, 0x14015C4F, 0x63066CD9, 0xFA0F3D63, 0x8D080DF5)
    else if i < 0x28 then
      Pick(i, 0x3B6E20C8, 0x4C69105E, 0xD56041E4, 0xA2677172, 0x3C03E4D1, 0x4B04D447, 0xD20D85FD, 0xA50AB56B)
    else if i < 0x30 then
      Pick(i, 0x35B5A8FA, 0x42B2986C, 0xDBBBC9D6, 0xACBCF940, 0x32D86CE3, 0x45DF5C75, 0xDCD60DCF, 0xABD13D59)
    else if i < 0x38 then
      Pick(i, 0x26D930AC, 0x51DE003A, 0xC8D75180, 0xBFD06116, 0x21B4F4B5, 0x56B3C423, 0xCFBA9599, 0xB8BDA50F)
    else if i < 0x40 then
      Pick(i, 0x2802B89E, 0x5F058808, 0xC60CD9B2, 0xB10BE924, 0x2F6F7C87, 0x58684C11, 0xC1611DAB, 0xB6662D3D)
    else if i < 0x48 then
      Pick(i, 0x76DC4190, 0x01DB7106, 0x98D220BC, 0xEFD5102A, 0x71B18589, 0x06B6B51F, 0x9FBFE4A5, 0xE8B8D433)
    else if i < 0x50 then
      Pick(i, 0x7807C9A2, 0x0F00F934, 0x9609A88E, 0xE10E9818, 0x7F6A0DBB, 0x086D3D2D, 0x91646C97, 0xE6635C01)
    else if i < 0x58 then
      Pick(i, 0x6B6B51F4, 0x1C6C6162, 0x856530D8, 0xF262004E, 0x6C0695ED, 0x1B01A57B, 0x8208F4C1, 0xF50FC457)
    else if i < 0x60 then
      Pick(i, 0x65B0D9C6, 0x12B7E950, 0x8BBEB8EA, 0xFCB9887C, 0x62DD1DDF, 0x15DA2D49, 0x8CD37CF3, 0xFBD44C65)
    else if i < 0x68 then
      Pick(i, 0x4DB26158, 0x3AB551CE, 0xA3BC0074, 0xD4BB30E2, 0x4ADFA541, 0x3DD895D7, 0xA4D1C46D, 0xD3D6F4FB)
    else if i < 0x70 then
      Pick(i, 0x4369E96A, 0x346ED9FC, 0xAD678846, 0xDA60B8D0, 0x44042D73, 0x33031DE5, 0xAA0A4C5F, 0xDD0D7CC9)
    else if i < 0x78 then
      Pick(i, 0x5005713C, 0x270241AA, 0xBE0B1010, 0xC90C2086, 0x5768B525, 0x206F85B3, 0xB966D409, 0xCE61E49F)
    else if i < 0x80 then
      Pick(i, 0x5EDEF90E, 0x29D9C998, 0xB0D09822, 0xC7D7A8B4, 0x59B33D17, 0x2EB40D81, 0xB7BD5C3B, 0xC0BA6CAD)
    else if i < 0x88 then
      Pick(i, 0xEDB88320, 0x9ABFB3B6, 0x03B6E20C, 0x74B1D29A, 0xEAD54739, 0x9DD277AF, 0x04DB2615, 0x73DC1683)
    else if i < 0x90 then
      Pick(i, 0xE3630B12, 0x94643B84, 0x0D6D6A3E, 0x7A6A5AA8, 0xE40ECF0B, 0x9309FF9D, 0x0A00AE27, 0x7D079EB1)
    else if i < 0x98 then
      Pick(i, 0xF00F9344, 0x8708A3D2, 0x1E01F268, 0x6906C2FE, 0xF762575D, 0x806567CB, 0x196C3671, 0x6E6B06E7)
    else if i < 0xA0 then
      Pick(i, 0xFED41B76, 0x89D32BE0, 0x10DA7A5A, 0x67DD4ACC, 0xF9B9DF6F, 0x8EBEEFF9, 0x17B7BE43, 0x60B08ED5)
    else if i < 0xA8 then
      Pick(i, 0xD6D6A3E8, 0xA1D1937E, 0x38D8C2C4, 0x4FDFF252, 0xD1BB67F1, 0xA6BC5767, 0x3FB506DD, 0x48B2364B)
    else if i < 0xB0 then
      Pick(i, 0xD80D2BDA, 0xAF0A1B4C, 0x36034AF6, 0x41047A60, 0xDF60EFC3, 0xA867DF55, 0x316E8EEF, 0x4669BE79)
    else if i < 0xB8 then
      Pick(i, 0xCB61B38C, 0xBC66831A, 0x256FD2A0, 0x5268E236, 0xCC0C7795, 0xBB0B4703, 0x220216B9, 0x5505262F)
    else if i < 0xC0 then
      Pick(i, 0xC5BA3BBE, 0xB2BD0B28, 0x2BB45A92, 0x5CB36A04, 0xC2D7FFA7, 0xB5D0CF31, 0x2CD99E8B, 0x5BDEAE1D)
    else if i < 0xC8 then
      Pick(i, 0x9B64C2B0, 0xEC63F226, 0x756AA39C, 0x026D930A, 0x9C0906A9, 0xEB0E363F, 0x72076785, 0x05005713)
    else if i < 0xD0 then
      Pick(i, 0x95BF4A82, 0xE2B87A14, 0x7BB12BAE, 0x0CB61B38, 0x92D28E9B, 0xE5D5BE0D, 0x7CDCEFB7, 0x0BDBDF21)
    else if i < 0xD8 then
      Pick(i, 0x86D3D2D4, 0xF1D4E242, 0x68DDB3F8, 0x1FDA836E, 0x81BE16CD, 0xF6B9265B, 0x6FB077E1, 0x18B74777)
    else if i < 0xE0 then
      Pick(i, 0x88085AE6, 0xFF0F6A70, 0x66063BCA, 0x11010B5C, 0x8F659EFF, 0xF862AE69, 0x616BFFD3, 0x166CCF45)
    else if i < 0xE8 then
      Pick(i, 0xA00AE278, 0xD70DD2EE, 0x4E048354, 0x3903B3C2, 0xA7672661, 0xD06016F7, 0x4969474D, 0x3E6E77DB)
    else if i < 0xF0 then
      Pick(i, 0xAED16A4A, 0xD9D65ADC, 0x40DF0B66, 0x37D83BF0, 0xA9BCAE53, 0xDEBB9EC5, 0x47B2CF7F, 0x30B5FFE9)
    else if i < 0xF8 then
      Pick(i, 0xBDBDF21C, 0xCABAC28A, 0x53B39330, 0x24B4A3A6, 0xBAD03605, 0xCDD70693, 0x54DE5729, 0x23D967BF)
    else     Pick(i, 0xB3667A2E, 0xC4614AB8, 0x5D681B02, 0x2A6F2B94, 0xB40BBE37, 0xC30C8EA1, 0x5A05DF1B, 0x2D02EF8D)
  }

  predicate IsRight(i: bv8) {
    Register(Crc32Lut(i)) == EightSteps(Register(i as bv32))
  }

  lemma Row00(i: bv8) requires i < 0x08 ensures IsRight(i) {}
  lemma Row08(i: bv8) requires 0x08 <= i < 0x10 ensures IsRight(i) {}
  lemma Row10(i: bv8) requires 0x10 <= i < 0x18 ensures IsRight(i) {}
  lemma Row18(i: bv8) requires 0x18 <= i < 0x20 ensures IsRight(i) {}
  lemma Row20(i: bv8) requires 0x20 <= i < 0x28 ensures IsRight(i) {}
  lemma Row28(i: bv8) requires 0x28 <= i < 0x30 ensures IsRight(i) {}
  lemma Row30(i: bv8) requires 0x30 <= i < 0x38 ensures IsRight(i) {}
  lemma Row38(i: bv8) requires 0x38 <= i < 0x40 ensures IsRight(i) {}
  lemma Row40(i: bv8) requires 0x40 <= i < 0x48 ensures IsRight(i) {}
  lemma Row48(i: bv8) requires 0x48 <= i < 0x50 ensures IsRight(i) {}
  lemma Row50(i: bv8) requires 0x50 <= i < 0x58 ensures IsRight(i) {}
  lemma Row58(i: bv8) requires 0x58 <= i < 0x60 ensures IsRight(i) {}
  lemma Row60(i: bv8) requires 0x60 <= i < 0x68 ensures IsRight(i) {}
  lemma Row68(i: bv8) requires 0x68 <= i < 0x70 ensures IsRight(i) {}
  lemma Row70(i: bv8) requires 0x70 <= i < 0x78 ensures IsRight(i) {}
  lemma Row78(i: bv8) requires 0x78 <= i < 0x80 ensures IsRight(i) {}
  lemma Row80(i: bv8) requires 0x80 <= i < 0x88 ensures IsRight(i) {}
  lemma Row88(i: bv8) requires 0x88 <= i < 0x90 ensures IsRight(i) {}
  lemma Row90(i: bv8) requires 0x90 <= i < 0x98 ensures IsRight(i) {}
  lemma Row98(i: bv8) requires 0x98 <= i < 0xA0 ensures IsRight(i) {}
  lemma RowA0(i: bv8) requires 0xA0 <= i < 0xA8 ensures IsRight(i) {}
  lemma RowA8(i: bv8) requires 0xA8 <= i < 0xB0 ensures IsRight(i) {}
  lemma RowB0(i: bv8) requires 0xB0 <= i < 0xB8 ensures IsRight(i) {}
  lemma RowB8(i: bv8) requires 0xB8 <= i < 0xC0 ensures IsRight(i) {}
  lemma RowC0(i: bv8) requires 0xC0 <= i < 0xC8 ensures IsRight(i) {}
  lemma RowC8(i: bv8) requires 0xC8 <= i < 0xD0 ensures IsRight(i) {}
  lemma RowD0(i: bv8) requires 0xD0 <= i < 0xD8 ensures IsRight(i) {}
  lemma RowD8(i: bv8) requires 0xD8 <= i < 0xE0 ensures IsRight(i) {}
  lemma RowE0(i: bv8) requires 0xE0 <= i < 0xE8 ensures IsRight(i) {}
  lemma RowE8(i: bv8) requires 0xE8 <= i < 0xF0 ensures IsRight(i) {}
  lemma RowF0(i: bv8) requires 0xF0 <= i < 0xF8 ensures IsRight(i) {}
  lemma RowF8(i: bv8) requires 0xF8 <= i ensures IsRight(i) {}

  /** Every entry is what eight bit steps make of its index. */
  lemma TableIsEightSteps(i: bv8)
    ensures Register(Crc32Lut(i)) == EightSteps(Register(i as bv32))
  {
    hide Crc32Lut, EightSteps;
    if i < 0x08 { Row00(i); }
    else if i < 0x10 { Row08(i); }
    else if i < 0x18 { Row10(i); }
    else if i < 0x20 { Row18(i); }
    else if i < 0x28 { Row20(i); }
    else if i < 0x30 { Row28(i); }
    else if i < 0x38 { Row30(i); }
    else if i < 0x40 { Row38(i); }
    else if i < 0x48 { Row40(i); }
    else if i < 0x50 { Row48(i); }
    else if i < 0x58 { Row50(i); }
    else if i < 0x60 { Row58(i); }
    else if i < 0x68 { Row60(i); }
    else if i < 0x70 { Row68(i); }
    else if i < 0x78 { Row70(i); }
    else if i < 0x80 { Row78(i); }
    else if i < 0x88 { Row80(i); }
    else if i < 0x90 { Row88(i); }
    else if i < 0x98 { Row90(i); }
    else if i < 0xA0 { Row98(i); }
    else if i < 0xA8 { RowA0(i); }
    else if i < 0xB0 { RowA8(i); }
    else if i < 0xB8 { RowB0(i); }
    else if i < 0xC0 { RowB8(i); }
    else if i < 0xC8 { RowC0(i); }
    else if i < 0xD0 { RowC8(i); }
    else if i < 0xD8 { RowD0(i); }
    else if i < 0xE0 { RowD8(i); }
    else if i < 0xE8 { RowE0(i); }
    else if i < 0xF0 { RowE8(i); }
    else if i < 0xF8 { RowF0(i); }
    else { RowF8(i); }
  }
}
