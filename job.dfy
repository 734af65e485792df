/**
 * Package `proxy`, file job.go: the mining job, its two constructors (from a
 * pool message, and per worker with an embedded nonce), reading the nonce
 * back out of a blob, and decoding the difficulty target.
 *
 * A Go `string` is a sequence of bytes; the model's `GoString` is a string
 * whose every character is below 256, one character per byte.
 */
module Proxy {
  import opened Wrappers
  import opened BigEndian
  import opened Hex

  /** Offset and width, in bytes of the decoded blob, of the big-endian nonce field. */
  const NonceOffset: nat := 39
  const NonceLength: nat := 4
  const NonceEnd: nat := NonceOffset + NonceLength

  /** A Go `string`: one character per byte, so every character is below 256. */
  type GoString = s: string | forall i :: 0 <= i < |s| ==> s[i] as int < 256

  /** A mining job. The source hands out `*Job`; nothing in job.go mutates one after construction. */
  datatype Job = Job(Blob: GoString, ID: GoString, Target: GoString, SubmittedNonces: seq<GoString>)

  /** A value of the pool's loosely typed message: a string, or anything else JSON can hold. */
  datatype Value = Str(s: GoString) | Other

  /**
   * The failures of this file: `ErrUnknownTargetFormat`, an error passed up
   * from `hex.DecodeString`, and the run-time panic of the slice at job.go:60,
   * which Go raises when the decoded slice's capacity is below 43 bytes.
   */
  datatype JobError = UnknownTargetFormat | BadHex(cause: HexError) | SliceBoundsPanic

  /** Go's `v, _ := m[key].(string)`: the string under `key`, or "" when it is missing or not a string. */
  function StringValue(m: map<GoString, Value>, key: GoString): GoString {
    if key in m then (match m[key] case Str(s) => s case Other => "") else ""
  }

  /** `NewJobFromServer`: never fails; a missing or non-string field becomes "". */
  function NewJobFromServer(m: map<GoString, Value>): (j: Job)
    ensures "blob" in m && m["blob"].Str? ==> j.Blob == m["blob"].s
    ensures !("blob" in m && m["blob"].Str?) ==> j.Blob == ""
    ensures "job_id" in m && m["job_id"].Str? ==> j.ID == m["job_id"].s
    ensures !("job_id" in m && m["job_id"].Str?) ==> j.ID == ""
    ensures "target" in m && m["target"].Str? ==> j.Target == m["target"].s
    ensures !("target" in m && m["target"].Str?) ==> j.Target == ""
    ensures j.SubmittedNonces == []
  {
    Job(StringValue(m, "blob"), StringValue(m, "job_id"), StringValue(m, "target"), [])
  }

  /** Keys other than `blob`, `job_id` and `target` do not influence ingestion. */
  lemma NewJobFromServerReadsThreeKeys(m1: map<GoString, Value>, m2: map<GoString, Value>)
    requires forall k :: k in ["blob", "job_id", "target"] ==>
               (k in m1 <==> k in m2) && (k in m1 ==> m1[k] == m2[k])
    ensures NewJobFromServer(m1) == NewJobFromServer(m2)
  {
  }

  /** The template bytes with the nonce field overwritten by the big-endian `nonce`. */
  function WithNonce(template: seq<byte>, nonce: uint32): (r: seq<byte>)
    requires |template| >= NonceEnd
    ensures |r| == |template|
    ensures r[NonceOffset..NonceEnd] == PutUint32(nonce)
    ensures forall i :: 0 <= i < |r| && !(NonceOffset <= i < NonceEnd) ==> r[i] == template[i]
  {
    template[..NonceOffset] + PutUint32(nonce) + template[NonceEnd..]
  }

  /** The job `NewJob` builds from `template`, as a value. */
  function Partitioned(template: seq<byte>, nonce: uint32, id: GoString, target: GoString): (j: Job)
    requires |template| >= NonceEnd
    ensures j.ID == id && j.Target == target && j.SubmittedNonces == []
    ensures |j.Blob| == 2 * |template|
    ensures HexDecode(j.Blob) == Ok(WithNonce(template, nonce))
  {
    DecodeEncode(WithNonce(template, nonce));
    Job(HexEncode(WithNonce(template, nonce)), id, target, [])
  }

  /**
   * `NewJob`: writes `nonce` big-endian into bytes [39, 43) of the caller's
   * buffer, in place, and returns a job whose blob is the hex of the whole
   * mutated buffer. Callers that share one buffer see each other's nonce.
   */
  method NewJob(blobBytes: array<byte>, nonce: uint32, id: GoString, target: GoString) returns (j: Job)
    requires blobBytes.Length >= NonceEnd
    modifies blobBytes
    ensures blobBytes[..] == WithNonce(old(blobBytes[..]), nonce)
    ensures j.Blob == HexEncode(blobBytes[..])
    ensures j == Partitioned(old(blobBytes[..]), nonce, id, target)
  {
    j := Job("", id, target, []);
    var nonceBytes := PutUint32(nonce);
    for k := 0 to NonceLength
      invariant forall i :: 0 <= i < blobBytes.Length ==>
                  blobBytes[i] == if NonceOffset <= i < NonceOffset + k then nonceBytes[i - NonceOffset] else old(blobBytes[i])
    {
      blobBytes[NonceOffset + k] := nonceBytes[k];
    }
    assert blobBytes[..] == WithNonce(old(blobBytes[..]), nonce);
    j := j.(Blob := HexEncode(blobBytes[..]));
  }

  /**
   * The caller's side of the copy contract: each worker job is built from its
   * own copy of the template, so neither job carries the other's nonce.
   */
  method PartitionCopies(template: seq<byte>, n1: uint32, n2: uint32, id: GoString, target: GoString)
    returns (j1: Job, j2: Job)
    requires |template| >= NonceEnd
    ensures Nonce(j1) == Ok((n1, WithNonce(template, n1)))
    ensures Nonce(j2) == Ok((n2, WithNonce(template, n2)))
  {
    var copy1 := new byte[|template|](i requires 0 <= i < |template| => template[i]);
    var copy2 := new byte[|template|](i requires 0 <= i < |template| => template[i]);
    assert copy1[..] == template && copy2[..] == template;
    j1 := NewJob(copy1, n1, id, target);
    j2 := NewJob(copy2, n2, id, target);
    NonceRoundTrip(template, n1, id, target);
    NonceRoundTrip(template, n2, id, target);
  }

  /**
   * `(*Job).Nonce`: the nonce in the blob's nonce field, with the decoded blob.
   * The slice at job.go:60 is taken to be bounded by the decoded length, which
   * is what the code relies on; `NonceAsWritten` below follows Go's capacity bound.
   */
  function Nonce(j: Job): (r: Result<(uint32, seq<byte>), JobError>)
    ensures r.Ok? <==> |j.Blob| % 2 == 0 && AllHex(j.Blob) && |j.Blob| >= 2 * NonceEnd
    ensures r == Err(SliceBoundsPanic) <==> |j.Blob| % 2 == 0 && AllHex(j.Blob) && |j.Blob| < 2 * NonceEnd
    ensures !(|j.Blob| % 2 == 0 && AllHex(j.Blob)) ==> r == Err(BadHex(HexDecode(j.Blob).error))
    ensures r.Ok? ==> HexEncode(r.value.1) == Lower(j.Blob)
    ensures r.Ok? ==> PutUint32(r.value.0) == r.value.1[NonceOffset..NonceEnd]
  {
    match HexDecode(j.Blob)
    case Err(e) => Err(BadHex(e))
    case Ok(blobBytes) =>
      if |blobBytes| < NonceEnd then Err(SliceBoundsPanic)
      else
        EncodeDecode(j.Blob);
        Ok((Uint32(blobBytes[NonceOffset..NonceEnd]), blobBytes))
  }

  /** The bytes of a Go string, one per character. */
  function Bytes(s: GoString): seq<byte> {
    seq(|s|, i requires 0 <= i < |s| => s[i] as int)
  }

  /**
   * The buffer `hex.DecodeString` leaves behind: it decodes in place into the
   * bytes of `[]byte(s)`, so the decoded bytes are followed by the characters
   * of `s` that decoding did not overwrite. Its capacity is taken to be `|s|`.
   */
  function DecodeBuffer(s: GoString, decoded: seq<byte>): seq<byte>
    requires |decoded| <= |s|
  {
    decoded + Bytes(s[|decoded|..])
  }

  /**
   * `(*Job).Nonce` as written: the slice at job.go:60 is bounded by the
   * capacity of the decoded slice, not by its length, so a valid blob of 22 to
   * 42 decoded bytes does not panic but reads leftover blob characters.
   */
  function NonceAsWritten(j: Job): (r: Result<(uint32, seq<byte>), JobError>)
    ensures r.Ok? <==> |j.Blob| % 2 == 0 && AllHex(j.Blob) && |j.Blob| >= NonceEnd
    ensures !(|j.Blob| % 2 == 0 && AllHex(j.Blob)) ==> r == Err(BadHex(HexDecode(j.Blob).error))
    ensures |j.Blob| >= 2 * NonceEnd ==> r == Nonce(j)
  {
    match HexDecode(j.Blob)
    case Err(e) => Err(BadHex(e))
    case Ok(blobBytes) =>
      var buffer := DecodeBuffer(j.Blob, blobBytes);
      if |buffer| < NonceEnd then Err(SliceBoundsPanic)
      else
        assert |blobBytes| >= NonceEnd ==> buffer[NonceOffset..NonceEnd] == blobBytes[NonceOffset..NonceEnd];
        Ok((Uint32(buffer[NonceOffset..NonceEnd]), blobBytes))
  }

  /** The target as decoded: an 8-character target followed by "00000000", any other unchanged. */
  function WidenedTarget(t: GoString): (w: GoString)
    ensures |t| == 8 ==> |w| == 16 && w[..8] == t
    ensures |t| != 8 ==> w == t
    ensures AllHex(w) <==> AllHex(t)
  {
    var w := if |t| == 8 then t + "00000000" else t;
    assert AllHex(w) <==> AllHex(t) by {
      if |t| == 8 {
        if AllHex(t) { AllHexAppend(t, "00000000"); }
        if AllHex(w) {
          AllHexSlice(w, 0, 8);
          assert w[0..8] == t;
        }
      }
    }
    w
  }

  /** `(*Job).getTargetUint64`: an 8-character target is widened with "00000000" before decoding. */
  function GetTargetUint64(j: Job): (r: Result<uint64, JobError>)
    ensures r == Err(UnknownTargetFormat) <==> |j.Target| != 8 && |j.Target| != 16
    ensures r.Ok? <==> (|j.Target| == 8 || |j.Target| == 16) && AllHex(j.Target)
    ensures (|j.Target| == 8 || |j.Target| == 16) && !AllHex(j.Target) ==>
              r == Err(BadHex(HexDecode(WidenedTarget(j.Target)).error))
    ensures r.Err? && r.error.BadHex? ==> r.error.cause.InvalidByte?
  {
    var target := WidenedTarget(j.Target);
    if |target| != 16 then Err(UnknownTargetFormat)
    else
      match HexDecode(target)
      case Err(e) => Err(BadHex(e))
      case Ok(targetBytes) => Ok(Uint64(targetBytes))
  }

  /** Round trip: the nonce `NewJob` embeds is the one `Nonce` reads back, with the mutated buffer. */
  lemma NonceRoundTrip(template: seq<byte>, nonce: uint32, id: GoString, target: GoString)
    requires |template| >= NonceEnd
    ensures Nonce(Partitioned(template, nonce, id, target)) == Ok((nonce, WithNonce(template, nonce)))
  {
  }

  /**
   * Conversely, a job whose nonce can be read is, up to the case of its hex
   * letters, the partition of its own decoded bytes with that nonce.
   */
  lemma NonceLocatesPartition(j: Job)
    requires Nonce(j).Ok?
    ensures var (nonce, blobBytes) := Nonce(j).value;
            WithNonce(blobBytes, nonce) == blobBytes &&
            Partitioned(blobBytes, nonce, j.ID, j.Target).Blob == Lower(j.Blob)
  {
  }

  /** Partitions of one template with different nonces have different blobs. */
  lemma PartitionsDiffer(template: seq<byte>, n1: uint32, n2: uint32, id: GoString, target: GoString)
    requires |template| >= NonceEnd && n1 != n2
    ensures Partitioned(template, n1, id, target).Blob != Partitioned(template, n2, id, target).Blob
  {
  }

  /**
   * What a template held in the nonce field does not matter: in particular a
   * buffer that `NewJob` already mutated gives the same next job as a clean copy.
   */
  lemma PartitionIgnoresOldNonce(t1: seq<byte>, t2: seq<byte>, nonce: uint32, id: GoString, target: GoString)
    requires |t1| == |t2| >= NonceEnd
    requires forall i :: 0 <= i < |t1| && !(NonceOffset <= i < NonceEnd) ==> t1[i] == t2[i]
    ensures Partitioned(t1, nonce, id, target) == Partitioned(t2, nonce, id, target)
  {
    var w1, w2 := WithNonce(t1, nonce), WithNonce(t2, nonce);
    forall i | 0 <= i < |w1| ensures w1[i] == w2[i] {
      if NonceOffset <= i < NonceEnd {
        assert w1[i] == w1[NonceOffset..NonceEnd][i - NonceOffset];
        assert w2[i] == w2[NonceOffset..NonceEnd][i - NonceOffset];
      }
    }
    assert w1 == w2;
  }

  /** The nonce is the value of the eight hex digits at characters [78, 86) of the blob. */
  lemma NonceFromBlobText(j: Job)
    requires Nonce(j).Ok?
    ensures AllHex(j.Blob[2 * NonceOffset..2 * NonceEnd])
    ensures Nonce(j).value.0 == HexNumeral(j.Blob[2 * NonceOffset..2 * NonceEnd])
  {
    var blobBytes := Nonce(j).value.1;
    var digits := j.Blob[2 * NonceOffset..2 * NonceEnd];
    HexDecodeSlice(j.Blob, NonceOffset, NonceEnd);
    FromBEHexDecode(digits);
    var field := blobBytes[NonceOffset..NonceEnd];
    assert field[..4] == field;
  }

  /** Widening: an 8-character target decodes as that target followed by "00000000". */
  lemma TargetWidening(j: Job)
    requires |j.Target| == 8
    ensures GetTargetUint64(j) == GetTargetUint64(j.(Target := j.Target + "00000000"))
  {
  }

  /**
   * The threshold is the target read as a hexadecimal numeral; an 8-character
   * target stands for its value shifted up by 32 bits.
   */
  lemma TargetThreshold(j: Job)
    requires GetTargetUint64(j).Ok?
    ensures |j.Target| == 16 ==> GetTargetUint64(j).value == HexNumeral(j.Target)
    ensures |j.Target| == 8 ==> GetTargetUint64(j).value == HexNumeral(j.Target) * 0x1_0000_0000
  {
    var target := WidenedTarget(j.Target);
    var targetBytes := HexDecode(target).value;
    assert targetBytes[..8] == targetBytes;
    FromBEHexDecode(target);
    if |j.Target| == 8 {
      HexNumeralZeros("00000000");
      HexNumeralAppend(j.Target, "00000000");
      assert Pow16(8) == 0x1_0000_0000;
    }
  }

  /** A 44-byte zero template with nonce 1: 39 "00" pairs, then "00000001", then one more "00". */
  lemma PartitionOfZeroTemplate(id: GoString, target: GoString)
    ensures var j := Partitioned(seq(44, _ => 0), 1, id, target);
            j.Blob == seq(88, i => if i == 85 then '1' else '0') &&
            Nonce(j) == Ok((1, seq(44, k => if k == 42 then 1 else 0)))
  {
    var template: seq<byte> := seq(44, _ => 0);
    var w := WithNonce(template, 1);
    assert PutUint32(1) == [0, 0, 0, 1];
    var expected: seq<byte> := seq(44, k => if k == 42 then 1 else 0);
    forall k | 0 <= k < 44 ensures w[k] == expected[k] {
      if NonceOffset <= k < NonceEnd {
        assert w[k] == w[NonceOffset..NonceEnd][k - NonceOffset];
      }
    }
    assert w == expected;
    var blob := HexEncode(w);
    forall i | 0 <= i < 88 ensures blob[i] == if i == 85 then '1' else '0' {
      HexEncodeAt(w, i / 2);
      assert i == 2 * (i / 2) || i == 2 * (i / 2) + 1;
    }
    NonceRoundTrip(template, 1, id, target);
  }

  /** `b4010000` widens to `b401000000000000`, the threshold 0xb401000000000000. */
  lemma TargetOfShortHex()
    ensures GetTargetUint64(Job("", "", "b4010000", [])) == Ok(0xb401_0000_0000_0000)
  {
    var t := "b4010000";
    assert "b4"[..1] == "b";
    assert HexNumeral("b4") == 0xb4;
    assert "b40"[..2] == "b4";
    assert HexNumeral("b40") == 0xb40;
    assert "b401"[..3] == "b40";
    assert HexNumeral("b401") == 0xb401;
    assert "b4010"[..4] == "b401";
    assert HexNumeral("b4010") == 0xb4010;
    assert "b40100"[..5] == "b4010";
    assert HexNumeral("b40100") == 0xb40100;
    assert "b401000"[..6] == "b40100";
    assert HexNumeral("b401000") == 0xb401000;
    assert t[..7] == "b401000";
    assert HexNumeral(t) == 0xb401_0000;
    TargetThreshold(Job("", "", t, []));
  }

  /**
   * A hex error from `getTargetUint64` names the first character of the
   * target itself that is not a hex digit, never one of the appended zeros.
   */
  lemma TargetInvalidByte(j: Job)
    requires GetTargetUint64(j).Err? && GetTargetUint64(j).error.BadHex?
    ensures exists k :: 0 <= k < |j.Target| && j.Target[k] == GetTargetUint64(j).error.cause.c &&
                        !IsHexDigit(j.Target[k]) && AllHex(j.Target[..k])
  {
    var target := WidenedTarget(j.Target);
    HexDecodeInvalidByte(target);
    var k :| 0 <= k < |target| && target[k] == HexDecode(target).error.c && !IsHexDigit(target[k]) && AllHex(target[..k]);
    assert k < |j.Target|;
    assert target[..k] == j.Target[..k];
  }

  /**
   * A valid blob of 44 zero characters decodes to 22 bytes. `Nonce` reports
   * the short blob, while `NonceAsWritten` reads characters 39 to 42 of the
   * blob itself, four '0's (byte 0x30 each), as the nonce.
   */
  lemma NonceReadsLeftoverText()
    ensures var j := Job(seq(44, _ => '0'), "", "", []);
            Nonce(j) == Err(SliceBoundsPanic) &&
            NonceAsWritten(j) == Ok((0x3030_3030, seq(22, _ => 0)))
  {
    var blob: GoString := seq(44, _ => '0');
    assert AllHex(blob);
    var decoded := HexDecode(blob).value;
    forall i | 0 <= i < 22 ensures decoded[i] == 0 {
      HexDecodeAt(blob, i);
    }
    assert decoded == seq(22, _ => 0);
    var field := DecodeBuffer(blob, decoded)[NonceOffset..NonceEnd];
    assert field == [0x30, 0x30, 0x30, 0x30];
    Uint32Shifts(field);
  }
}
