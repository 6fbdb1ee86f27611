/** Numbers in memory, lowest byte first. */
module Endian {

  function LittleEndian(s: seq<bv8>): nat {
    if s == [] then 0 else s[0] as int + 256 * LittleEndian(s[1..])
  }

  lemma TwoBytes(s: seq<bv8>)
    requires |s| >= 2
    ensures LittleEndian(s) == s[0] as int + 0x100 * (s[1] as int) + 0x1_0000 * LittleEndian(s[2..])
  {
    assert s[1..][1..] == s[2..];
  }

  lemma FourBytes(s: seq<bv8>)
    requires |s| >= 4
    ensures LittleEndian(s) ==
      s[0] as int + 0x100 * (s[1] as int) + 0x1_0000 * (s[2] as int) + 0x100_0000 * (s[3] as int)
      + 0x1_0000_0000 * LittleEndian(s[4..])
  {
    TwoBytes(s);
    TwoBytes(s[2..]);
    assert s[2..][2..] == s[4..];
  }
}
