/**
 The card exchange used to read a contactless card's identifier: the PC/SC
 GET DATA pseudo-command (PC/SC Part 3) and the interpretation of its
 response, whose last two bytes are the ISO/IEC 7816-4 status word
 (section 5.1; 90 00 means the command succeeded).
 */
module Apdu {
  import opened Wrappers
  import Hex

  /** FF CA 00 00 00: GET DATA, P1 = 00 (UID), Le = 00 (all bytes). */
  const GetUidCommand: seq<bv8> := [0xFF, 0xCA, 0x00, 0x00, 0x00]

  /** The receive-buffer length the monitor passes along with the command. */
  const ResponseLimit: nat := 255

  /** The only status word that yields a UID. */
  const StatusSuccess: bv32 := 0x9000

  /**
   The trailing status word: the second-to-last byte shifted left by eight,
   or-ed with the last byte, in 32-bit integer arithmetic.
   */
  function StatusWord(data: seq<bv8>): (sw: bv32)
    requires |data| >= 2
    ensures sw < 0x1_0000
    ensures (sw >> 8) as bv8 == data[|data| - 2]
    ensures (sw & 0xFF) as bv8 == data[|data| - 1]
  {
    (data[|data| - 2] as bv32 << 8) | data[|data| - 1] as bv32
  }

  /** The status word of a response is 0x9000 exactly when it ends in 90 00. */
  lemma SuccessIffTrailer(data: seq<bv8>)
    requires |data| >= 2
    ensures StatusWord(data) == StatusSuccess <==> data[|data| - 2] == 0x90 && data[|data| - 1] == 0x00
  {
  }

  /** A response ends in the success status word. */
  predicate Succeeded(data: seq<bv8>) {
    |data| >= 2 && data[|data| - 2] == 0x90 && data[|data| - 1] == 0x00
  }

  /**
   The UID carried by a response: everything before the status word, in
   upper-case hexadecimal, and only when the response is at least two bytes
   long and its status word is 0x9000.
   */
  function ExtractUid(data: seq<bv8>): (uid: Option<string>)
    ensures uid.Some? <==> Succeeded(data)
    ensures uid.Some? ==> |uid.value| == 2 * (|data| - 2)
    ensures uid.Some? ==> Hex.AllDigits(uid.value, true)
    ensures uid.Some? ==> Hex.Decode(uid.value) == Some(data[..|data| - 2])
  {
    if |data| >= 2 && StatusWord(data) == StatusSuccess then
      SuccessIffTrailer(data);
      Hex.DecodeEncode(data[..|data| - 2], true);
      Some(Hex.Encode(data[..|data| - 2], true))
    else
      if |data| >= 2 then SuccessIffTrailer(data); None else None
  }

  /** AA BB 90 00 carries the UID "AABB" and 12 AB 90 00 the UID "12AB"; AA BB 6A 82 (file not found) carries none. */
  lemma {:induction false} ExampleResponses()
    ensures ExtractUid([0xAA, 0xBB, 0x90, 0x00]) == Some("AABB")
    ensures ExtractUid([0x12, 0xAB, 0x90, 0x00]) == Some("12AB")
    ensures ExtractUid([0xAA, 0xBB, 0x6A, 0x82]) == None
    ensures ExtractUid([0x90]) == None
  {
    var data: seq<bv8> := [0xAA, 0xBB, 0x90, 0x00];
    assert data[..2] == [0xAA, 0xBB];
    var e := Hex.Encode([0xAA, 0xBB], true);
    assert Hex.Encode([0xBB], true) == "BB";
    assert e == "AABB";
    var data2: seq<bv8> := [0x12, 0xAB, 0x90, 0x00];
    assert data2[..2] == [0x12, 0xAB];
    assert Hex.Encode([0xAB], true) == "AB";
    assert Hex.Encode([0x12, 0xAB], true) == "12AB";
  }
}
