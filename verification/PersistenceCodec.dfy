/** The length-framed byte stream behind snapshots, the write-ahead log and the outbox file. */
module PersistenceCodec {
  import opened ByteStrings

  /** "KVAI-PB1\n" */
  const MAGIC: ByteString := [75, 86, 65, 73, 45, 80, 66, 49, 10]

  /** Frame lengths are cast to 32 bits. */
  const WORD: nat := 0x1_0000_0000

  datatype FramesResult =
    | Decoded(frames: seq<ByteString>)
    | MissingMagic
    | TruncatedFrame
    | TruncatedPayload

  function HasMagic(bytes: ByteString): bool {
    MAGIC <= bytes
  }

  /** (length >> (8 * i)) for a 32-bit length. */
  function ShiftedRight(length: nat, i: nat): nat {
    if i == 0 then length else ShiftedRight(length, i - 1) / 256
  }

  /** The value of a one in byte i. */
  function Weight(i: nat): (w: nat)
    ensures w > 0
  {
    if i == 0 then 1 else 256 * Weight(i - 1)
  }

  function LengthBytes(n: nat): (b: ByteString)
    requires n < WORD
    ensures |b| == 4
  {
    [n % 256, n / 256 % 256, n / 65536 % 256, n / 16777216]
  }

  function LengthOf(b: ByteString): (n: nat)
    requires |b| == 4
    ensures n < WORD
  {
    b[0] as int + 256 * (b[1] as int) + 65536 * (b[2] as int) + 16777216 * (b[3] as int)
  }

  lemma LengthRoundTrip(n: nat)
    requires n < WORD
    ensures LengthOf(LengthBytes(n)) == n
  {
    assert n / 256 / 256 == n / 65536 && n / 65536 / 256 == n / 16777216;
    assert n == 256 * (n / 256) + n % 256;
    assert n / 256 == 256 * (n / 65536) + n / 256 % 256;
    assert n / 65536 == 256 * (n / 16777216) + n / 65536 % 256;
  }

  lemma BytesRoundTrip(b: ByteString)
    requires |b| == 4
    ensures LengthBytes(LengthOf(b)) == b
  {
    var m := LengthOf(b);
    assert m / 256 == b[1] as int + 256 * (b[2] as int) + 65536 * (b[3] as int);
    assert m / 65536 == b[2] as int + 256 * (b[3] as int);
    assert m / 16777216 == b[3];
  }

  /** One frame: the payload length, truncated to 32 bits and little-endian, then the payload. */
  function Frame(payload: ByteString): ByteString {
    LengthBytes(|payload| % WORD) + payload
  }

  function Concatenated(payloads: seq<ByteString>): ByteString {
    if payloads == [] then [] else Frame(payloads[0]) + Concatenated(payloads[1..])
  }

  function Prepended(front: seq<ByteString>, r: FramesResult): FramesResult {
    match r
    case Decoded(frames) => Decoded(front + frames)
    case failure => failure
  }

  /** The frames of a stream whose magic header has been removed. */
  function Parse(b: ByteString): FramesResult
    decreases |b|
  {
    if b == [] then Decoded([])
    else if |b| < 4 then TruncatedFrame
    else
      var n := LengthOf(b[..4]);
      if n > |b| - 4 then TruncatedPayload
      else Prepended([b[4..4 + n]], Parse(b[4 + n..]))
  }

  function Decode(bytes: ByteString): FramesResult {
    if HasMagic(bytes) then Parse(bytes[|MAGIC|..]) else MissingMagic
  }

  predicate Short(payloads: seq<ByteString>) {
    forall p :: p in payloads ==> |p| < WORD
  }

  // ------------------------------------------------------------------ the two loops

  method EncodeFrame(payload: ByteString) returns (output: ByteString)
    ensures output == Frame(payload)
  {
    output := [];
    var length: nat := |payload| % WORD;
    for i := 0 to 4
      invariant output == LengthBytes(length)[..i]
    {
      assert ShiftedRight(length, 1) == length / 256;
      assert ShiftedRight(length, 2) == length / 65536;
      assert ShiftedRight(length, 3) == length / 16777216;
      output := output + [ShiftedRight(length, i) % 256];
    }
    output := output + payload;
  }

  /** The inner loop of DecodeFrames: length |= byte << shift. */
  method ReadLength(bytes: ByteString, offset: nat) returns (length: nat)
    requires offset + 4 <= |bytes|
    ensures length == LengthOf(bytes[offset..offset + 4])
  {
    length := 0;
    ghost var b := bytes[offset..offset + 4];
    for i := 0 to 4
      invariant i == 0 ==> length == 0
      invariant i == 1 ==> length == b[0] as int
      invariant i == 2 ==> length == b[0] as int + 256 * (b[1] as int)
      invariant i == 3 ==> length == b[0] as int + 256 * (b[1] as int) + 65536 * (b[2] as int)
      invariant i == 4 ==> length == LengthOf(b)
    {
      assert Weight(1) == 256 && Weight(2) == 65536 && Weight(3) == 16777216;
      length := length + (bytes[offset + i] as int) * Weight(i);
    }
  }

  /** The writing loops of the store and the outbox: one frame per payload, behind what is there. */
  method WriteFrames(start: ByteString, payloads: seq<ByteString>) returns (output: ByteString)
    ensures output == start + Concatenated(payloads)
  {
    output := start;
    for i := 0 to |payloads|
      invariant output == start + Concatenated(payloads[..i])
    {
      var frame := EncodeFrame(payloads[i]);
      ConcatenatedSnoc(payloads, i);
      output := output + frame;
    }
    assert payloads[..|payloads|] == payloads;
  }

  lemma ParseStep(bytes: ByteString, frames: seq<ByteString>, offset: nat)
    requires offset + 4 <= |bytes|
    ensures var length := LengthOf(bytes[offset..offset + 4]);
            var start := offset + 4;
            Prepended(frames, Parse(bytes[offset..])) ==
            if length > |bytes| - start then TruncatedPayload
            else Prepended(frames + [bytes[start..start + length]], Parse(bytes[start + length..]))
  {
    hide LengthOf, LengthBytes;
    var tail := bytes[offset..];
    var length := LengthOf(bytes[offset..offset + 4]);
    var start := offset + 4;
    assert tail[..4] == bytes[offset..start];
    if length <= |bytes| - start {
      assert tail[4 + length..] == bytes[start + length..];
      assert tail[4..4 + length] == bytes[start..start + length];
      var r := Parse(bytes[start + length..]);
      if r.Decoded? {
        assert frames + ([tail[4..4 + length]] + r.frames) == frames + [tail[4..4 + length]] + r.frames;
      }
    }
  }

  lemma ParseEnds(b: ByteString)
    requires |b| < 4
    ensures Parse(b) == if b == [] then Decoded([]) else TruncatedFrame
  {
  }

  method DecodeFrames(bytes: ByteString) returns (r: FramesResult)
    ensures r == Decode(bytes)
  {
    hide LengthOf, Concatenated, Parse;
    if !HasMagic(bytes) {
      return MissingMagic;
    }
    var frames := [];
    var offset := |MAGIC|;
    assert Parse(bytes[offset..]).Decoded? ==>
        frames + Parse(bytes[offset..]).frames == Parse(bytes[offset..]).frames;
    while offset < |bytes|
      invariant |MAGIC| <= offset <= |bytes|
      invariant Decode(bytes) == Prepended(frames, Parse(bytes[offset..]))
    {
      if |bytes| - offset < 4 {
        ParseEnds(bytes[offset..]);
        return TruncatedFrame;
      }
      ParseStep(bytes, frames, offset);
      var length := ReadLength(bytes, offset);
      offset := offset + 4;
      if length > |bytes| - offset {
        return TruncatedPayload;
      }
      frames := frames + [bytes[offset..offset + length]];
      offset := offset + length;
    }
    assert bytes[offset..] == [] && frames + [] == frames;
    ParseEnds([]);
    r := Decoded(frames);
  }

  // ------------------------------------------------------------------ what the codec promises

  lemma ConcatenatedCons(p: ByteString, rest: seq<ByteString>)
    ensures Concatenated([p] + rest) == Frame(p) + Concatenated(rest)
  {
    assert ([p] + rest)[1..] == rest;
  }

  lemma ParseFrame(payload: ByteString, rest: ByteString)
    requires |payload| < WORD
    ensures Parse(Frame(payload) + rest) == Prepended([payload], Parse(rest))
  {
    hide LengthOf, LengthBytes;
    var b := Frame(payload) + rest;
    LengthRoundTrip(|payload|);
    assert b[..4] == LengthBytes(|payload|);
    assert b[4..4 + |payload|] == payload;
    assert b[4 + |payload|..] == rest;
  }

  lemma {:induction false} ParseInverts(payloads: seq<ByteString>)
    requires Short(payloads)
    ensures Parse(Concatenated(payloads)) == Decoded(payloads)
  {
    if payloads != [] {
      ParseFrame(payloads[0], Concatenated(payloads[1..]));
      ParseInverts(payloads[1..]);
      assert payloads == [payloads[0]] + payloads[1..];
    }
  }

  /** The first frame of an accepted stream is the encoding of the first payload. */
  lemma FirstFrame(b: ByteString)
    requires |b| >= 4 && LengthOf(b[..4]) <= |b| - 4
    ensures Frame(b[4..4 + LengthOf(b[..4])]) == b[..4 + LengthOf(b[..4])]
  {
    hide LengthOf, LengthBytes;
    BytesRoundTrip(b[..4]);
    var n := LengthOf(b[..4]);
    assert b[..4 + n] == b[..4] + b[4..4 + n];
  }

  lemma {:induction false} ParseCanonical(b: ByteString)
    requires Parse(b).Decoded?
    ensures Short(Parse(b).frames)
    ensures b == Concatenated(Parse(b).frames)
    decreases |b|
  {
    if b != [] {
      var n := LengthOf(b[..4]);
      FirstFrame(b);
      var rest := Parse(b[4 + n..]).frames;
      ParseCanonical(b[4 + n..]);
      ConcatenatedCons(b[4..4 + n], rest);
      assert b == b[..4 + n] + b[4 + n..];
    }
  }

  /** Decoding undoes encoding exactly when every length survives the 32-bit cast. */
  lemma RoundTripExactly(payloads: seq<ByteString>)
    ensures Decode(MAGIC + Concatenated(payloads)) == Decoded(payloads) <==> Short(payloads)
  {
    hide Parse, Concatenated;
    var b := MAGIC + Concatenated(payloads);
    assert b[|MAGIC|..] == Concatenated(payloads);
    if Short(payloads) {
      ParseInverts(payloads);
    } else if Decode(b) == Decoded(payloads) {
      ParseCanonical(Concatenated(payloads));
    }
  }

  /** An accepted byte string is the one encoding of what it decodes to. */
  lemma AcceptedIsCanonical(b: ByteString, payloads: seq<ByteString>)
    ensures Decode(b) == Decoded(payloads) <==> b == MAGIC + Concatenated(payloads) && Short(payloads)
  {
    hide Parse, Concatenated;
    if Decode(b) == Decoded(payloads) {
      ParseCanonical(b[|MAGIC|..]);
      assert b == b[..|MAGIC|] + b[|MAGIC|..];
    } else if b == MAGIC + Concatenated(payloads) {
      RoundTripExactly(payloads);
    }
  }

  lemma FileReadsBack(payloads: seq<ByteString>)
    requires Short(payloads)
    ensures HasMagic(MAGIC + Concatenated(payloads))
    ensures Decode(MAGIC + Concatenated(payloads)) == Decoded(payloads)
  {
    RoundTripExactly(payloads);
  }

  lemma {:induction false} ConcatenatedAppend(a: seq<ByteString>, b: seq<ByteString>)
    ensures Concatenated(a + b) == Concatenated(a) + Concatenated(b)
  {
    if a == [] {
      assert a + b == b;
    } else {
      assert (a + b)[1..] == a[1..] + b;
      ConcatenatedAppend(a[1..], b);
    }
  }

  lemma ConcatenatedSnoc(payloads: seq<ByteString>, i: nat)
    requires i < |payloads|
    ensures Concatenated(payloads[..i + 1]) == Concatenated(payloads[..i]) + Frame(payloads[i])
  {
    assert payloads[..i + 1] == payloads[..i] + [payloads[i]];
    ConcatenatedAppend(payloads[..i], [payloads[i]]);
    ConcatenatedCons(payloads[i], []);
  }

  lemma ConcatenatedGrows(payloads: seq<ByteString>, i: nat)
    requires i < |payloads|
    ensures |Concatenated(payloads[..i])| < |Concatenated(payloads)|
  {
    assert payloads == payloads[..i] + payloads[i..];
    ConcatenatedAppend(payloads[..i], payloads[i..]);
  }

  lemma {:induction false} ParseConcatenated(payloads: seq<ByteString>, rest: ByteString)
    requires Short(payloads)
    ensures Parse(Concatenated(payloads) + rest) == Prepended(payloads, Parse(rest))
  {
    var r := Parse(rest);
    if payloads == [] {
      assert Concatenated(payloads) + rest == rest;
      assert r.Decoded? ==> payloads + r.frames == r.frames;
    } else {
      hide Parse, Frame, Concatenated;
      var first, others := payloads[0], payloads[1..];
      assert payloads == [first] + others;
      ConcatenatedCons(first, others);
      assert Concatenated(payloads) + rest == Frame(first) + (Concatenated(others) + rest);
      ParseFrame(first, Concatenated(others) + rest);
      ParseConcatenated(others, rest);
      PrependTwice([first], others, r);
    }
  }

  lemma PrependTwice(a: seq<ByteString>, b: seq<ByteString>, r: FramesResult)
    ensures Prepended(a, Prepended(b, r)) == Prepended(a + b, r)
  {
    assert r.Decoded? ==> a + (b + r.frames) == a + b + r.frames;
  }

  /** A stream cut after m bytes still decodes exactly when the cut falls between two frames,
      and then it yields exactly the frames before the cut. */
  lemma {:induction false} CutStream(payloads: seq<ByteString>, m: nat)
    requires Short(payloads)
    requires m <= |Concatenated(payloads)|
    ensures Parse(Concatenated(payloads)[..m]).Decoded? <==>
            exists j: nat :: j <= |payloads| && m == |Concatenated(payloads[..j])|
    ensures forall j: nat :: j <= |payloads| && m == |Concatenated(payloads[..j])| ==>
              Parse(Concatenated(payloads)[..m]) == Decoded(payloads[..j])
  {
    var all := Concatenated(payloads);
    forall j: nat | j <= |payloads| && m == |Concatenated(payloads[..j])|
      ensures Parse(all[..m]) == Decoded(payloads[..j])
    {
      assert payloads == payloads[..j] + payloads[j..];
      ConcatenatedAppend(payloads[..j], payloads[j..]);
      assert all[..m] == Concatenated(payloads[..j]);
      ParseInverts(payloads[..j]);
    }
    if Parse(all[..m]).Decoded? {
      var j := CutBoundary(payloads, m);
    }
  }

  /** A cut inside the first frame leaves an undecodable stream. */
  lemma CutInsideFrame(payload: ByteString, m: nat)
    requires |payload| < WORD
    requires 0 < m < |Frame(payload)|
    ensures !Parse(Frame(payload)[..m]).Decoded?
  {
    hide LengthOf, LengthBytes;
    LengthRoundTrip(|payload|);
    if m >= 4 {
      assert Frame(payload)[..m][..4] == LengthBytes(|payload|);
    }
  }

  lemma {:induction false} CutBoundary(payloads: seq<ByteString>, m: nat) returns (j: nat)
    requires Short(payloads)
    requires m <= |Concatenated(payloads)|
    requires Parse(Concatenated(payloads)[..m]).Decoded?
    ensures j <= |payloads| && m == |Concatenated(payloads[..j])|
  {
    hide LengthOf, LengthBytes;
    if m == 0 {
      j := 0;
    } else {
      var first, tail := Frame(payloads[0]), Concatenated(payloads[1..]);
      if m < |first| {
        assert Concatenated(payloads)[..m] == first[..m];
        CutInsideFrame(payloads[0], m);
        assert false;
      }
      assert Concatenated(payloads)[..m] == first + tail[..m - |first|];
      ParseFrame(payloads[0], tail[..m - |first|]);
      var i := CutBoundary(payloads[1..], m - |first|);
      j := i + 1;
      assert payloads[..j] == [payloads[0]] + payloads[1..][..i];
      ConcatenatedCons(payloads[0], payloads[1..][..i]);
    }
  }

  // ------------------------------------------------------------------ the bytes themselves

  /** Byte i of a frame is the i-th digit of the payload length in base 256; the payload follows. */
  lemma FrameIsLittleEndian(payload: ByteString, i: nat)
    requires |payload| < WORD && i < 4
    ensures Frame(payload)[i] == |payload| / Weight(i) % 256
    ensures |Frame(payload)| == |payload| + 4 && Frame(payload)[4..] == payload
  {
    var n := |payload|;
    assert Weight(1) == 256 && Weight(2) == 65536 && Weight(3) == 16777216;
    assert n % WORD == n;
    assert n / 16777216 < 256;
    assert Frame(payload)[..4] == LengthBytes(n);
    assert Frame(payload)[i] == LengthBytes(n)[i];
  }

  /** No further frame fits. */
  predicate Stops(b: ByteString) {
    |b| < 4 || LengthOf(b[..4]) > |b| - 4
  }

  lemma ParseStops(b: ByteString)
    requires Stops(b)
    ensures Parse(b) == if b == [] then Decoded([]) else if |b| < 4 then TruncatedFrame else TruncatedPayload
  {
    hide LengthOf;
  }

  lemma ParseGoesOn(b: ByteString) returns (payload: ByteString, rest: ByteString)
    requires !Stops(b)
    ensures |payload| < WORD && |rest| < |b| && b == Frame(payload) + rest
    ensures Parse(b) == Prepended([payload], Parse(rest))
  {
    hide LengthOf, LengthBytes;
    var n := LengthOf(b[..4]);
    payload, rest := b[4..4 + n], b[4 + n..];
    BytesRoundTrip(b[..4]);
    assert Frame(payload) == b[..4] + payload;
  }

  /** Every byte sequence is whole frames and a rest, and the rest decides the answer: nothing, less than
      a length, or less than its length announces. */
  lemma {:induction false} ParseExactly(b: ByteString) returns (frames: seq<ByteString>, rest: ByteString)
    ensures Short(frames) && b == Concatenated(frames) + rest && Stops(rest)
    ensures Parse(b) == if rest == [] then Decoded(frames) else if |rest| < 4 then TruncatedFrame else TruncatedPayload
    decreases |b|
  {
    hide Parse, Stops, Frame;
    if Stops(b) {
      ParseStops(b);
      frames, rest := [], b;
    } else {
      var payload, behind := ParseGoesOn(b);
      frames, rest := ParseExactly(behind);
      assert ([payload] + frames)[1..] == frames;
      assert Concatenated([payload] + frames) == Frame(payload) + Concatenated(frames);
      frames := [payload] + frames;
    }
  }
}
