/** BME280 byte decoding, identical in toukashiken.py, EM_land.py and
    class/release.py: unpacking the trimming parameters read from
    registers 0x88, 0x8E, 0xA1 and 0xE1 (Bosch BME280 datasheet section
    4.2.2, Table 16), and assembling the 20-bit raw pressure and
    temperature values from the burst read at 0xF7 (datasheet sections
    5.4.7 and 5.4.8).  The operands are non-negative Python integers, so
    `x << k` is `x * 2^k`, `x >> k` is `x / 2^k`, `x & (2^k - 1)` is
    `x % 2^k`, and an OR of operands with disjoint bits is their sum; the
    model writes them in that arithmetic form. */
module Bme280 {

  /** A byte as returned by `read_i2c_block_data`. */
  type Byte = x: int | 0 <= x < 256

  /** `(hi << 8) | lo`: a little-endian 16-bit word. */
  function Word(lo: Byte, hi: Byte): (w: int)
  {
    hi * 256 + lo
  }

  /** Both bytes can be read back out of the word, and it fits 16 bits. */
  lemma WordFields(lo: Byte, hi: Byte)
    ensures 0 <= Word(lo, hi) < 65536
    ensures Word(lo, hi) / 256 == hi && Word(lo, hi) % 256 == lo
  {
  }

  /** `if v >= 32768: v -= 65536`: the two's complement reading of a word. */
  function Signed16(v: int): (s: int)
    requires 0 <= v < 65536
    ensures -32768 <= s < 32768
    ensures s % 65536 == v
  {
    if v >= 32768 then v - 65536 else v
  }

  /** `if v >= 128: v -= 256`. */
  function Signed8(v: int): (s: int)
    requires 0 <= v < 256
    ensures -128 <= s < 128
    ensures s % 256 == v
  {
    if v >= 128 then v - 256 else v
  }

  /** The trimming parameters as the Python lists `digT`, `digP`, `digH`. */
  datatype Trimming = Trimming(digT: seq<int>, digP: seq<int>, digH: seq<int>)

  /** `(dat[2i+1] << 8) | dat[2i]` for each of the `n` little-endian words. */
  function Words(dat: seq<Byte>, n: nat): (ws: seq<int>)
    requires |dat| >= 2 * n
    ensures |ws| == n
    ensures forall i :: 0 <= i < n ==> ws[i] == Word(dat[2 * i], dat[2 * i + 1]) && 0 <= ws[i] < 65536
  {
    forall i | 0 <= i < n ensures 0 <= Word(dat[2 * i], dat[2 * i + 1]) < 65536 {
      WordFields(dat[2 * i], dat[2 * i + 1]);
    }
    seq(n, i requires 0 <= i < n => Word(dat[2 * i], dat[2 * i + 1]))
  }

  /** `for i in range(lo, hi): if ws[i] >= 32768: ws[i] -= 65536`. */
  function SignRange(ws: seq<int>, lo: nat, hi: nat): (r: seq<int>)
    requires lo <= hi <= |ws|
    requires forall i :: 0 <= i < |ws| ==> 0 <= ws[i] < 65536
    ensures |r| == |ws|
    ensures forall i :: 0 <= i < |ws| ==> r[i] == if lo <= i < hi then Signed16(ws[i]) else ws[i]
  {
    seq(|ws|, i requires 0 <= i < |ws| => if lo <= i < hi then Signed16(ws[i]) else ws[i])
  }

  /** The humidity list before any sign conversion:
      `[dh, (e2 << 8) | e1, e3, (e4 << 4) | (e5 & 0x0F), (e6 << 4) | (e5 >> 4), e7]`. */
  function HumidityWords(dh: Byte, datH: seq<Byte>): (h: seq<int>)
    requires |datH| == 8
  {
    [dh, Word(datH[0], datH[1]), datH[2],
     datH[3] as int * 16 + datH[4] % 16,
     datH[5] as int * 16 + datH[4] / 16,
     datH[6]]
  }

  /** dig_H4 and dig_H5 are 12-bit fields sharing register 0xE5: each is
      at most 4095, so the `>= 32768` test applied to dig_H4 never changes
      it, and the two nibbles of 0xE5 can be read back out of them. */
  lemma {:induction false} HumidityNibbles(dh: Byte, datH: seq<Byte>)
    requires |datH| == 8
    ensures |HumidityWords(dh, datH)| == 6
    ensures 0 <= HumidityWords(dh, datH)[3] <= 4095 && 0 <= HumidityWords(dh, datH)[4] <= 4095
    ensures HumidityWords(dh, datH)[3] / 16 == datH[3] && HumidityWords(dh, datH)[4] / 16 == datH[5]
    ensures HumidityWords(dh, datH)[4] % 16 * 16 + HumidityWords(dh, datH)[3] % 16 == datH[4]
  {
    var e5 := datH[4] as int;
    assert e5 == e5 / 16 * 16 + e5 % 16;
  }

  /** `read_compensate` / `_read_compensate_bme280` as written: only dig_T2,
      dig_P2..dig_P8, dig_H2, dig_H4 (a no-op) and dig_H6 are sign
      converted.  The block reads return exactly the bytes requested. */
  function ReadCompensate(datT: seq<Byte>, datP: seq<Byte>, dh: Byte, datH: seq<Byte>): (t: Trimming)
    requires |datT| == 6 && |datP| == 18 && |datH| == 8
    ensures |t.digT| == 3 && |t.digP| == 9 && |t.digH| == 6
    ensures 0 <= t.digT[0] < 65536 && -32768 <= t.digT[1] < 32768 && 0 <= t.digT[2] < 65536
    ensures 0 <= t.digP[0] < 65536 && 0 <= t.digP[8] < 65536
    ensures forall i :: 1 <= i < 8 ==> -32768 <= t.digP[i] < 32768
    ensures forall i :: 0 <= i < 9 ==> t.digP[i] % 65536 == Word(datP[2 * i], datP[2 * i + 1])
    ensures t.digT[1] % 65536 == Word(datT[2], datT[3])
    ensures 0 <= t.digH[0] < 256 && -32768 <= t.digH[1] < 32768 && 0 <= t.digH[2] < 256
    ensures 0 <= t.digH[3] < 4096 && 0 <= t.digH[4] < 4096 && -128 <= t.digH[5] < 128
    ensures t.digT[0] == Word(datT[0], datT[1]) && t.digT[2] == Word(datT[4], datT[5])
    ensures t.digP[0] == Word(datP[0], datP[1]) && t.digP[8] == Word(datP[16], datP[17])
    ensures t.digH[0] == dh && t.digH[2] == datH[2] && t.digH[5] % 256 == datH[6]
    ensures t.digH[1] % 65536 == Word(datH[0], datH[1])
    ensures t.digH[3] / 16 == datH[3] && t.digH[4] / 16 == datH[5]
    ensures t.digH[4] % 16 * 16 + t.digH[3] % 16 == datH[4]
  {
    var digT := SignRange(Words(datT, 3), 1, 2);
    var digP := SignRange(Words(datP, 9), 1, 8);
    var h := HumidityWords(dh, datH);
    HumidityNibbles(dh, datH);
    WordFields(datH[0], datH[1]);
    var digH := [h[0], Signed16(h[1]), h[2], Signed16(h[3]), h[4], Signed8(h[5])];
    Trimming(digT, digP, digH)
  }

  /** The trimming parameters as section 4.2.2 of the BME280 datasheet
      types them: dig_T1 and dig_P1 unsigned, dig_T2..dig_T3 and
      dig_P2..dig_P9 signed.  The humidity part is kept as the source
      computes it, so dig_H4 and dig_H5 stay unsigned 12-bit values
      although the same table types them as signed. */
  function ReadCompensateDatasheet(datT: seq<Byte>, datP: seq<Byte>, dh: Byte, datH: seq<Byte>): (t: Trimming)
    requires |datT| == 6 && |datP| == 18 && |datH| == 8
    ensures |t.digT| == 3 && |t.digP| == 9 && |t.digH| == 6
    ensures 0 <= t.digT[0] < 65536 && 0 <= t.digP[0] < 65536
    ensures forall i :: 1 <= i < 3 ==> -32768 <= t.digT[i] < 32768 && t.digT[i] % 65536 == Word(datT[2 * i], datT[2 * i + 1])
    ensures forall i :: 1 <= i < 9 ==> -32768 <= t.digP[i] < 32768 && t.digP[i] % 65536 == Word(datP[2 * i], datP[2 * i + 1])
    ensures t.digH == ReadCompensate(datT, datP, dh, datH).digH
  {
    var digT := SignRange(Words(datT, 3), 1, 3);
    var digP := SignRange(Words(datP, 9), 1, 9);
    Trimming(digT, digP, ReadCompensate(datT, datP, dh, datH).digH)
  }

  /** The two readings differ exactly in dig_T3 and dig_P9, and only when
      those words have their top bit set. */
  lemma CompensateDiffersOnlyInT3P9(datT: seq<Byte>, datP: seq<Byte>, dh: Byte, datH: seq<Byte>)
    requires |datT| == 6 && |datP| == 18 && |datH| == 8
    ensures var a := ReadCompensate(datT, datP, dh, datH);
            var b := ReadCompensateDatasheet(datT, datP, dh, datH);
            && a.digT[..2] == b.digT[..2] && a.digP[..8] == b.digP[..8]
            && (a.digT[2] == b.digT[2] <==> datT[5] < 128)
            && (a.digP[8] == b.digP[8] <==> datP[17] < 128)
  {
  }

  /** A negative dig_T3 (bytes 0x00, 0x80, i.e. -32768) is read as 32768. */
  lemma NegativeT3ReadAsPositive(datP: seq<Byte>, dh: Byte, datH: seq<Byte>)
    requires |datP| == 18 && |datH| == 8
    ensures ReadCompensate([0, 0, 0, 0, 0, 0x80], datP, dh, datH).digT[2] == 32768
    ensures ReadCompensateDatasheet([0, 0, 0, 0, 0, 0x80], datP, dh, datH).digT[2] == -32768
  {
  }

  /** `((b0 << 16) | (b1 << 8) | b2) >> 4`: one 20-bit raw ADC value from
      its msb, lsb and xlsb registers. */
  function Adc20(b0: Byte, b1: Byte, b2: Byte): (v: int)
  {
    (b0 * 65536 + b1 * 256 + b2) / 16
  }

  /** The value is below 2^20 and the msb, the lsb and the top nibble of
      xlsb can each be read back out of it. */
  lemma {:induction false} Adc20Fields(b0: Byte, b1: Byte, b2: Byte)
    ensures 0 <= Adc20(b0, b1, b2) < 0x10_0000
    ensures Adc20(b0, b1, b2) == b0 * 4096 + b1 * 16 + b2 / 16
    ensures Adc20(b0, b1, b2) / 4096 == b0
    ensures Adc20(b0, b1, b2) / 16 % 256 == b1
    ensures Adc20(b0, b1, b2) % 16 == b2 / 16
  {
    var lo := b2 as int;
    assert lo == lo / 16 * 16 + lo % 16;
    var v := b0 * 4096 + b1 * 16 + lo / 16;
    assert b0 * 65536 + b1 * 256 + lo == v * 16 + lo % 16;
    assert v / 16 == b0 * 256 + b1;
  }

  /** Only the top nibble of xlsb (bits 7:4) reaches the result. */
  lemma AdcIgnoresLowNibble(b0: Byte, b1: Byte, b2: Byte, c2: Byte)
    requires b2 / 16 == c2 / 16
    ensures Adc20(b0, b1, b2) == Adc20(b0, b1, c2)
  {
    Adc20Fields(b0, b1, b2);
    Adc20Fields(b0, b1, c2);
  }

  /** The raw part of `get_pressure_and_temperature`: pressure from bytes
      0..2 (0xF7..0xF9), temperature from bytes 3..5 (0xFA..0xFC) of the
      8-byte burst; each fits 20 bits and determines its msb and lsb. */
  function RawPressureTemperature(dat: seq<Byte>): (r: (int, int))
    requires |dat| == 8
    ensures 0 <= r.0 < 0x10_0000 && 0 <= r.1 < 0x10_0000
    ensures r.0 / 4096 == dat[0] && r.0 / 16 % 256 == dat[1] && r.0 % 16 == dat[2] / 16
    ensures r.1 / 4096 == dat[3] && r.1 / 16 % 256 == dat[4] && r.1 % 16 == dat[5] / 16
  {
    Adc20Fields(dat[0], dat[1], dat[2]);
    Adc20Fields(dat[3], dat[4], dat[5]);
    (Adc20(dat[0], dat[1], dat[2]), Adc20(dat[3], dat[4], dat[5]))
  }
}
