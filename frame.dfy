/**
 * The frame codec of the SGP30 driver. A response from the chip is a run of
 * 3-byte groups, each a big-endian unsigned 16-bit word followed by the
 * CRC-8 of its two bytes. The driver reads such frames under three
 * different policies, kept apart here:
 *   - the serial number (three groups) is all-or-nothing;
 *   - a measurement (CO2 and VOC groups) checks each field on its own;
 *   - the raw signals (H2 and ethanol groups) are never checked.
 * Where the driver signals a checksum failure with the value `False`, this
 * model uses a tagged result instead.
 */
module Frame {
  import opened Crc8

  /** An unsigned 16-bit word (struct format "H"). */
  type Word = x: nat | x < 0x1_0000

  /** A checked field: its value, or the marker of a failed checksum. */
  datatype Field = Valid(value: Word) | ChecksumInvalid

  /** A serial-number read: all three words, or failure with no partial list. */
  datatype SerialResult = Ok(words: seq<Word>) | Fail

  /** The readings the chip reports while it is still warming up. */
  const WarmupCo2: Word := 400
  const WarmupVoc: Word := 0

  /** The big-endian word formed by two bytes; its high and low bytes are exactly the inputs. */
  function BigEndian(hi: Byte, lo: Byte): (w: Word)
    ensures w / 256 == hi && w % 256 == lo
  {
    hi * 256 + lo
  }

  /** The word carried by group `g` of `data`, whatever its checksum byte says. */
  function GroupWord(data: seq<Byte>, g: nat): Word
    requires 3 * g + 3 <= |data|
  {
    BigEndian(data[3 * g], data[3 * g + 1])
  }

  /** Group `g` carries the checksum of its own two data bytes. */
  predicate GroupOk(data: seq<Byte>, g: nat)
    requires 3 * g + 3 <= |data|
  {
    Checksum(data[3 * g .. 3 * g + 2]) == data[3 * g + 2]
  }

  /** The per-field decoding of group `g`. */
  function FieldOf(data: seq<Byte>, g: nat): Field
    requires 3 * g + 3 <= |data|
  {
    if GroupOk(data, g) then Valid(GroupWord(data, g)) else ChecksumInvalid
  }

  /** The 3-byte group the chip sends for `w`: its two bytes and their checksum. */
  function EncodeGroup(w: Word): (group: seq<Byte>)
    ensures |group| == 3
  {
    [w / 256, w % 256, Checksum([w / 256, w % 256])]
  }

  /** A group that carries its own checksum decodes to the word it was made from. */
  lemma DecodeEncodedGroup(w: Word)
    ensures FieldOf(EncodeGroup(w), 0) == Valid(w)
  {
    var group := EncodeGroup(w);
    assert group[0..2] == [w / 256, w % 256];
  }

  /** A group whose third byte is not the checksum of the first two is reported invalid. */
  lemma CorruptedGroupInvalid(hi: Byte, lo: Byte, c: Byte)
    requires c != Checksum([hi, lo])
    ensures FieldOf([hi, lo, c], 0) == ChecksumInvalid
  {
    assert [hi, lo, c][0..2] == [hi, lo];
  }

  /** A group decodes valid exactly when it is the encoding of its own word. */
  lemma {:induction false} ValidExactlyWhenEncoded(data: seq<Byte>, g: nat)
    requires 3 * g + 3 <= |data|
    ensures FieldOf(data, g).Valid? <==> data[3 * g .. 3 * g + 3] == EncodeGroup(GroupWord(data, g))
  {
    var w := GroupWord(data, g);
    var group := data[3 * g .. 3 * g + 3];
    assert data[3 * g .. 3 * g + 2] == [w / 256, w % 256];
    assert group == [data[3 * g], data[3 * g + 1], data[3 * g + 2]];
  }

  /** A field's decoding depends on its own three bytes and on nothing else in the frame. */
  lemma FieldDependsOnlyOnItsGroup(a: seq<Byte>, b: seq<Byte>, g: nat)
    requires 3 * g + 3 <= |a| && 3 * g + 3 <= |b|
    requires a[3 * g .. 3 * g + 3] == b[3 * g .. 3 * g + 3]
    ensures FieldOf(a, g) == FieldOf(b, g)
  {
    assert a[3 * g .. 3 * g + 2] == a[3 * g .. 3 * g + 3][..2];
    assert b[3 * g .. 3 * g + 2] == b[3 * g .. 3 * g + 3][..2];
    assert a[3 * g + 2] == a[3 * g .. 3 * g + 3][2];
    assert b[3 * g + 2] == b[3 * g .. 3 * g + 3][2];
  }

  // ---------------------------------------------------------------------
  // Serial number: all-or-nothing over three groups.
  // ---------------------------------------------------------------------

  /** The serial number a 9-byte response stands for. */
  function SerialOf(resp: seq<Byte>): SerialResult
    requires |resp| >= 9
  {
    if GroupOk(resp, 0) && GroupOk(resp, 1) && GroupOk(resp, 2)
    then Ok([GroupWord(resp, 0), GroupWord(resp, 1), GroupWord(resp, 2)])
    else Fail
  }

  /**
   * The driver's serial-number decoding: walk the groups in order, append
   * each word, and give up on the first bad checksum.
   */
  method DecodeSerial(resp: seq<Byte>) returns (r: SerialResult)
    requires |resp| >= 9
    ensures r == SerialOf(resp)
    ensures r.Ok? <==> forall g | 0 <= g < 3 :: GroupOk(resp, g)
    ensures r.Ok? ==> |r.words| == 3 && forall g | 0 <= g < 3 :: r.words[g] == GroupWord(resp, g)
  {
    var serial: seq<Word> := [];
    for g := 0 to 3
      invariant |serial| == g
      invariant forall k | 0 <= k < g :: GroupOk(resp, k) && serial[k] == GroupWord(resp, k)
    {
      var i := 3 * g;
      var b, crs := BigEndian(resp[i], resp[i + 1]), resp[i + 2];
      var c := Crc(resp[i .. i + 2]);
      if c != crs {
        return Fail;
      }
      serial := serial + [b];
    }
    return Ok(serial);
  }

  /** One bad group anywhere fails the whole serial number. */
  lemma SerialAllOrNothing(resp: seq<Byte>, g: nat)
    requires |resp| >= 9 && g < 3
    requires !GroupOk(resp, g)
    ensures SerialOf(resp) == Fail
  {
  }

  /** Three groups that carry their own checksums decode to the three words they were made from. */
  lemma SerialOfEncoded(w0: Word, w1: Word, w2: Word)
    ensures SerialOf(EncodeGroup(w0) + EncodeGroup(w1) + EncodeGroup(w2)) == Ok([w0, w1, w2])
  {
    var resp := EncodeGroup(w0) + EncodeGroup(w1) + EncodeGroup(w2);
    assert resp[0..3] == EncodeGroup(w0);
    assert resp[3..6] == EncodeGroup(w1);
    assert resp[6..9] == EncodeGroup(w2);
    assert FieldOf(resp, 0) == FieldOf(EncodeGroup(w0), 0) by {
      FieldDependsOnlyOnItsGroup(resp, EncodeGroup(w0), 0);
    }
    assert FieldOf(resp, 1) == FieldOf(EncodeGroup(w1), 0) by {
      var shifted := [0, 0, 0] + EncodeGroup(w1);
      assert shifted[3..6] == EncodeGroup(w1);
      FieldDependsOnlyOnItsGroup(resp, shifted, 1);
      assert shifted[3..5] == EncodeGroup(w1)[0..2];
    }
    assert FieldOf(resp, 2) == FieldOf(EncodeGroup(w2), 0) by {
      var shifted := [0, 0, 0, 0, 0, 0] + EncodeGroup(w2);
      assert shifted[6..9] == EncodeGroup(w2);
      FieldDependsOnlyOnItsGroup(resp, shifted, 2);
      assert shifted[6..8] == EncodeGroup(w2)[0..2];
    }
    DecodeEncodedGroup(w0);
    DecodeEncodedGroup(w1);
    DecodeEncodedGroup(w2);
  }

  // ---------------------------------------------------------------------
  // Measurement: each field checked on its own, and the warm-up flag.
  // ---------------------------------------------------------------------

  /** The chip's fixed output during warm-up, judged on the words as unpacked. */
  predicate IsWarmupReading(co2: Word, voc: Word)
  {
    co2 == WarmupCo2 && voc == WarmupVoc
  }

  /** A decoded measurement: CO2 (ppm) and VOC (ppb), each valid or not, and the warm-up flag. */
  class Measurement {
    var co2: Field
    var voc: Field
    var warmup: bool

    /**
     * Unpacks both groups, keeps each word only if its own checksum holds,
     * and raises the warm-up flag from the unpacked words.
     */
    constructor (data: seq<Byte>)
      requires |data| >= 6
      ensures co2 == FieldOf(data, 0) && voc == FieldOf(data, 1)
      ensures warmup <==> IsWarmupReading(GroupWord(data, 0), GroupWord(data, 1))
    {
      var co2Word, csum1 := BigEndian(data[0], data[1]), data[2];
      var vocWord, csum2 := BigEndian(data[3], data[4]), data[5];

      co2 := Valid(co2Word);
      voc := Valid(vocWord);

      var c1 := Crc(data[0..2]);
      if c1 != csum1 {
        co2 := ChecksumInvalid;
      }
      assert GroupOk(data, 0) <==> c1 == csum1 by {
        assert data[3 * 0 .. 3 * 0 + 2] == data[0..2];
      }
      var c2 := Crc(data[3..5]);
      if c2 != csum2 {
        voc := ChecksumInvalid;
      }
      assert GroupOk(data, 1) <==> c2 == csum2 by {
        assert data[3 * 1 .. 3 * 1 + 2] == data[3..5];
      }

      warmup := false;
      if co2Word == 400 && vocWord == 0 {
        warmup := true;
      }
    }
  }

  /** A good frame carrying 500 ppm CO2 and 0 ppb VOC decodes to both, and is not a warm-up reading. */
  lemma Co2FiveHundredFrame()
    ensures var frame := [0x01, 0xF4, Checksum([0x01, 0xF4]), 0x00, 0x00, Checksum([0x00, 0x00])];
      && FieldOf(frame, 0) == Valid(500)
      && FieldOf(frame, 1) == Valid(0)
      && !IsWarmupReading(GroupWord(frame, 0), GroupWord(frame, 1))
  {
    var frame := [0x01, 0xF4, Checksum([0x01, 0xF4]), 0x00, 0x00, Checksum([0x00, 0x00])];
    assert frame[0..2] == [0x01, 0xF4];
    assert frame[3..5] == [0x00, 0x00];
  }

  /**
   * Corrupting the CO2 checksum byte marks CO2 invalid and leaves the VOC
   * field exactly as it was.
   */
  lemma CorruptCo2ChecksumOnly(data: seq<Byte>, c: Byte)
    requires |data| >= 6
    requires c != Checksum(data[0..2])
    ensures FieldOf(data[2 := c], 0) == ChecksumInvalid
    ensures FieldOf(data[2 := c], 1) == FieldOf(data, 1)
  {
    var bad := data[2 := c];
    assert bad[0..2] == data[0..2];
    assert bad[3..6] == data[3..6];
    FieldDependsOnlyOnItsGroup(bad, data, 1);
  }

  /**
   * The warm-up flag is raised from the unpacked words, so a frame that
   * reads 400 ppm with a bad CO2 checksum still counts as warm-up, with CO2
   * invalid and VOC valid.
   */
  lemma WarmupIgnoresChecksum(c: Byte)
    requires c != Checksum([0x01, 0x90])
    ensures var frame := [0x01, 0x90, c, 0x00, 0x00, Checksum([0x00, 0x00])];
      && FieldOf(frame, 0) == ChecksumInvalid
      && FieldOf(frame, 1) == Valid(0)
      && IsWarmupReading(GroupWord(frame, 0), GroupWord(frame, 1))
  {
    var frame := [0x01, 0x90, c, 0x00, 0x00, Checksum([0x00, 0x00])];
    assert frame[0..2] == [0x01, 0x90];
    assert frame[3..5] == [0x00, 0x00];
  }

  /**
   * Warm-up is recognised from four bytes of the frame, 0x01 0x90 and
   * 0x00 0x00, whatever the two checksum bytes hold.
   */
  lemma WarmupOnlyForDefaults(data: seq<Byte>)
    requires |data| >= 6
    ensures IsWarmupReading(GroupWord(data, 0), GroupWord(data, 1))
      <==> data[0] == 0x01 && data[1] == 0x90 && data[3] == 0 && data[4] == 0
  {
    var co2, voc := GroupWord(data, 0), GroupWord(data, 1);
    assert co2 / 256 == data[0] && co2 % 256 == data[1];
    assert voc / 256 == data[3] && voc % 256 == data[4];
    if co2 == WarmupCo2 {
      assert WarmupCo2 / 256 == 0x01 && WarmupCo2 % 256 == 0x90;
    }
  }

  // ---------------------------------------------------------------------
  // Raw signals: no checksum gate.
  // ---------------------------------------------------------------------

  /** The raw H2 and ethanol words of a 6-byte response; the checksum bytes are read but not checked. */
  function RawSignalsOf(data: seq<Byte>): (Word, Word)
    requires |data| >= 6
  {
    (GroupWord(data, 0), GroupWord(data, 1))
  }

  /** The raw signals are the same whatever the two checksum bytes hold. */
  lemma RawIgnoresChecksumBytes(data: seq<Byte>, c1: Byte, c2: Byte)
    requires |data| >= 6
    ensures RawSignalsOf(data[2 := c1][5 := c2]) == RawSignalsOf(data)
    ensures RawSignalsOf(data) == (data[0] as int * 256 + data[1], data[3] as int * 256 + data[4])
  {
  }

  /** Where a checksum does hold, the raw word agrees with the checked field. */
  lemma RawAgreesWithCheckedFields(data: seq<Byte>)
    requires |data| >= 6
    ensures GroupOk(data, 0) ==> FieldOf(data, 0) == Valid(RawSignalsOf(data).0)
    ensures GroupOk(data, 1) ==> FieldOf(data, 1) == Valid(RawSignalsOf(data).1)
  {
  }
}
