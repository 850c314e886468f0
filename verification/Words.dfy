/** Fixed-width integers of the C++ source: 64-bit keys that pack two 32-bit
    fields, the four-byte fields of a message header, and the shard index. */
module Words {

  type Byte = x: int | 0 <= x < 0x100
  type Int32 = x: int | -0x8000_0000 <= x < 0x8000_0000
  type Uint32 = x: int | 0 <= x < 0x1_0000_0000
  type Uint64 = x: int | 0 <= x < 0x1_0000_0000_0000_0000

  /** Conversion to a 32-bit signed integer: keep the low 32 bits, two's complement. */
  function ToInt32(x: int): (r: Int32)
    ensures r % 0x1_0000_0000 == x % 0x1_0000_0000
    ensures -0x8000_0000 <= x < 0x8000_0000 ==> r == x
  {
    var m := x % 0x1_0000_0000;
    if m < 0x8000_0000 then m else m - 0x1_0000_0000
  }

  /** `((uint64_t)hi << 32) + lo`: both operands are widened, so a negative `lo`
      borrows from the high word and everything is taken modulo 2^64. */
  function Pack(hi: int, lo: int): (key: Uint64) {
    (hi * 0x1_0000_0000 + lo) % 0x1_0000_0000_0000_0000
  }

  /** `key >> 32`, still unsigned. */
  function HighWord(key: Uint64): (r: Uint32) {
    key / 0x1_0000_0000
  }

  /** `(uint32_t)key`. */
  function LowWord(key: Uint64): (r: Uint32) {
    key % 0x1_0000_0000
  }

  lemma DivMod32(x: int, q: int, r: int)
    requires x == q * 0x1_0000_0000 + r && 0 <= r < 0x1_0000_0000
    ensures x / 0x1_0000_0000 == q && x % 0x1_0000_0000 == r
  {}

  lemma Mod64(x: int, q: int, r: int)
    requires x == q * 0x1_0000_0000_0000_0000 + r && 0 <= r < 0x1_0000_0000_0000_0000
    ensures x % 0x1_0000_0000_0000_0000 == r
  {}

  /** Where the two words of a packed key come from: the low word is `lo` modulo
      2^32, and the high word is `hi` less the borrow. */
  lemma PackWords(hi: int, lo: Int32)
    ensures LowWord(Pack(hi, lo)) == lo % 0x1_0000_0000
    ensures HighWord(Pack(hi, lo)) == (if lo >= 0 then hi else hi - 1) % 0x1_0000_0000
  {
    var carry := if lo >= 0 then hi else hi - 1;
    var low := if lo >= 0 then lo else lo + 0x1_0000_0000;
    var q, r := carry / 0x1_0000_0000, carry % 0x1_0000_0000;
    Mod64(hi * 0x1_0000_0000 + lo, q, r * 0x1_0000_0000 + low);
    DivMod32(Pack(hi, lo), r, low);
    DivMod32(lo, if lo >= 0 then 0 else -1, low);
  }

  /** A module key names one (modid, cmdid) pair: packing is injective on all
      pairs of 32-bit integers, negative ones included. */
  lemma PackInjective(a: Int32, b: Int32, c: Int32, d: Int32)
    requires Pack(a, b) == Pack(c, d)
    ensures a == c && b == d
  {
    hide Pack, LowWord, HighWord;
    PackWords(a, b);
    PackWords(c, d);
    Congruent(b, d);
    Congruent(if b >= 0 then a else a - 1, if d >= 0 then c else c - 1);
  }

  lemma Congruent(x: int, y: int)
    requires x % 0x1_0000_0000 == y % 0x1_0000_0000
    requires -0x1_0000_0000 < x - y < 0x1_0000_0000
    ensures x == y
  {}

  /** Only the low 32 bits of the high operand matter, so it makes no difference
      whether an ip travels as `uint32_t` or as the signed field of a message. */
  lemma PackIgnoresSign(hi: int, lo: Int32)
    ensures Pack(ToInt32(hi), lo) == Pack(hi, lo)
  {
    var k := ToInt32(hi) / 0x1_0000_0000 - hi / 0x1_0000_0000;
    assert ToInt32(hi) == hi + k * 0x1_0000_0000;
    var x := hi * 0x1_0000_0000 + lo;
    Mod64(ToInt32(hi) * 0x1_0000_0000 + lo, x / 0x1_0000_0000_0000_0000 + k, Pack(hi, lo));
  }

  /** Splitting a module key recovers the pair it was built from if and only if
      the low field is not negative. */
  lemma UnpackModuleIff(modid: Int32, cmdid: Int32)
    ensures ToInt32(LowWord(Pack(modid, cmdid))) == cmdid
    ensures ToInt32(HighWord(Pack(modid, cmdid))) == modid <==> cmdid >= 0
  {
    hide Pack, LowWord, HighWord, ToInt32;
    PackWords(modid, cmdid);
    var lo, hi := ToInt32(LowWord(Pack(modid, cmdid))), ToInt32(HighWord(Pack(modid, cmdid)));
    Congruent(lo, cmdid);
    if cmdid >= 0 { Congruent(hi, modid); }
  }

  /** The path of one host: packed by the DNS loader, unpacked into a response
      whose fields are signed, repacked by the agent. The key survives the trip
      if and only if the port is not negative, and then so do ip and port. */
  lemma HostKeyTripIff(ip: Uint32, port: Int32)
    ensures var key := Pack(ip, port);
            var ip', port' := ToInt32(HighWord(key)), ToInt32(LowWord(key));
            && (Pack(ip', port') == key <==> port >= 0)
            && (port >= 0 ==> ip' == ToInt32(ip) && port' == port)
  {
    hide Pack, LowWord, HighWord, ToInt32;
    var key := Pack(ip, port);
    PackWords(ip, port);
    var ip', port' := ToInt32(HighWord(key)), ToInt32(LowWord(key));
    Congruent(port', port);
    if port >= 0 {
      Congruent(ip', ToInt32(ip));
      PackIgnoresSign(ip, port);
    } else {
      PackWords(ip', port);
    }
  }

  /** C's remainder: it takes the sign of the dividend. */
  function TruncRem(x: int, m: int): (r: int)
    requires m > 0
  {
    if x >= 0 then x % m else -((-x) % m)
  }

  /** `(modid + cmdid) % 3`, the index of the agent's UDP server and of its route table.
      The sum of the two 32-bit integers is taken in 32 bits. */
  function ShardIndex(modid: int, cmdid: int): (r: int) {
    TruncRem(ToInt32(modid + cmdid), 3)
  }

  /** The shard index is a subscript of the three-element tables if and only if the 32-bit
      sum is nonnegative or a multiple of three. On the exact sum: one below 2^31 in size
      must be nonnegative or a multiple of three, one at or above 2^31 must leave
      remainder one, and one below -2^31 wraps to a nonnegative number. */
  lemma ShardIndexIff(modid: Int32, cmdid: Int32)
    ensures var sum := modid + cmdid;
            0 <= ShardIndex(modid, cmdid) < 3 <==>
              if sum < -0x8000_0000 then true
              else if sum < 0 then sum % 3 == 0
              else sum < 0x8000_0000 || sum % 3 == 1
  {
    var sum := modid + cmdid;
    if 0x8000_0000 <= sum {
      WrapsTo(sum, sum - 0x1_0000_0000);
      MultipleOfThree(sum - 0x1_0000_0000);
    } else if sum < -0x8000_0000 {
      WrapsTo(sum, sum + 0x1_0000_0000);
    } else if sum < 0 {
      MultipleOfThree(sum);
    }
  }

  lemma WrapsTo(x: int, r: Int32)
    requires x == r + 0x1_0000_0000 || x == r - 0x1_0000_0000
    ensures ToInt32(x) == r
  {
    Congruent(ToInt32(x), r);
  }

  lemma MultipleOfThree(w: int)
    requires w < 0
    ensures TruncRem(w, 3) == 0 <==> w % 3 == 0
    ensures TruncRem(w, 3) <= 0
    ensures w % 3 == 0 <==> (w + 0x1_0000_0000) % 3 == 1
  {}

  /** The sum of two ids as 32 bits hold it. */
  function Sum32(modid: Int32, cmdid: Int32): (w: Int32) {
    var sum := modid + cmdid;
    if sum >= 0x8000_0000 then sum - 0x1_0000_0000
    else if sum < -0x8000_0000 then sum + 0x1_0000_0000
    else sum
  }

  /** What the index is: between -2 and 2, congruent to the 32-bit sum modulo three, and
      never of the opposite sign. There is only one such number. */
  lemma ShardIndexMeans(modid: Int32, cmdid: Int32)
    ensures var i, w := ShardIndex(modid, cmdid), Sum32(modid, cmdid);
            && -3 < i < 3 && i % 3 == w % 3
            && (w >= 0 ==> i >= 0) && (w <= 0 ==> i <= 0)
  {
    var sum, w := modid + cmdid, Sum32(modid, cmdid);
    if w != sum { WrapsTo(sum, w); }
    RemainderMeans(w);
  }

  lemma RemainderMeans(sum: int)
    ensures var r := TruncRem(sum, 3);
            -3 < r < 3 && r % 3 == sum % 3 && (sum >= 0 ==> r >= 0) && (sum <= 0 ==> r <= 0)
  {
    if sum >= 0 {
      SameMod3(sum, sum % 3, sum / 3);
    } else {
      var q, r := (-sum) / 3, (-sum) % 3;
      SameMod3(sum, -r, -q);
    }
  }

  lemma SameMod3(a: int, b: int, q: int)
    requires a == b + 3 * q
    ensures a % 3 == b % 3
  {}

  lemma ThreeInARow(s: nat)
    ensures s % 3 != (s + 1) % 3 && s % 3 != (s + 2) % 3 && (s + 1) % 3 != (s + 2) % 3
  {}

  /** Load is spread: three command ids in a row of one module use the three ports. */
  lemma ShardIndexSpreads(modid: Int32, cmdid: Int32, port: int)
    requires 0 <= modid + cmdid && modid + cmdid + 2 < 0x8000_0000 && cmdid + 2 < 0x8000_0000
    ensures ShardIndex(modid, cmdid) != ShardIndex(modid, cmdid + 1)
    ensures 0 <= port < 3 ==> exists c: Int32 :: cmdid <= c <= cmdid + 2 && ShardIndex(modid, c) == port
  {
    hide ShardIndex;
    ShardIndexMeans(modid, cmdid);
    ShardIndexMeans(modid, cmdid + 1);
    ShardIndexMeans(modid, cmdid + 2);
    ThreeInARow(modid + cmdid);
    if 0 <= port < 3 {
      var c: Int32 := if ShardIndex(modid, cmdid) == port then cmdid
                      else if ShardIndex(modid, cmdid + 1) == port then cmdid + 1 else cmdid + 2;
      assert ShardIndex(modid, c) == port;
    }
  }

  /** Nonnegative ids whose sum overflows: the subscript is -2. */
  lemma ShardIndexOverflows()
    ensures ShardIndex(0x7FFF_FFFF, 1) == -2
  {
    WrapsTo(0x8000_0000, -0x8000_0000);
  }

  /** The four bytes of a 32-bit field in memory, least significant first. */
  function EncodeInt(x: Int32): (bs: seq<Byte>)
    ensures |bs| == 4
  {
    var m := x % 0x1_0000_0000;
    var q1 := m / 0x100;
    var q2 := q1 / 0x100;
    [m % 0x100, q1 % 0x100, q2 % 0x100, q2 / 0x100]
  }

  /** The bytes weighed add up to the unsigned value of the field. */
  lemma EncodeIntWeighs(x: Int32)
    ensures var bs := EncodeInt(x);
            bs[0] as int + bs[1] as int * 0x100 + bs[2] as int * 0x1_0000 + bs[3] as int * 0x100_0000 == x % 0x1_0000_0000
  {
    var m := x % 0x1_0000_0000;
    var q1 := m / 0x100;
    var q2 := q1 / 0x100;
    assert m == m % 0x100 + 0x100 * (q1 % 0x100 + 0x100 * (q2 % 0x100 + 0x100 * (q2 / 0x100)));
  }

  /** The unsigned value of four bytes. */
  function LittleEndian(bs: seq<Byte>): (m: Uint32)
    requires |bs| == 4
  {
    var b0: int, b1: int, b2: int, b3: int := bs[0], bs[1], bs[2], bs[3];
    b0 + b1 * 0x100 + b2 * 0x1_0000 + b3 * 0x100_0000
  }

  function DecodeInt(bs: seq<Byte>): (x: Int32)
    requires |bs| == 4
  {
    ToInt32(LittleEndian(bs))
  }

  lemma DecodeEncodeInt(x: Int32)
    ensures DecodeInt(EncodeInt(x)) == x
  {
    var m := x % 0x1_0000_0000;
    var q1 := m / 0x100;
    var q2 := q1 / 0x100;
    assert m == m % 0x100 + 0x100 * (q1 % 0x100 + 0x100 * (q2 % 0x100 + 0x100 * (q2 / 0x100)));
    assert LittleEndian(EncodeInt(x)) == m;
  }

  lemma EncodeDecodeInt(bs: seq<Byte>)
    requires |bs| == 4
    ensures EncodeInt(DecodeInt(bs)) == bs
  {
    var b0: int, b1: int, b2: int, b3: int := bs[0], bs[1], bs[2], bs[3];
    var m := LittleEndian(bs);
    assert DecodeInt(bs) % 0x1_0000_0000 == m;
    var q1 := b1 + 0x100 * (b2 + 0x100 * b3);
    var q2 := b2 + 0x100 * b3;
    assert m == b0 + 0x100 * q1 && m / 0x100 == q1 && q1 / 0x100 == q2;
  }
}
