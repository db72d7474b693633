/**
 The framed Raw chunk: a checksummed header followed by checksummed frames.  The
 field checks on the decoded header and envelopes are parameters, so everything
 holds whatever those checks are.
 */
module RawChunk {
  import opened Basics
  import opened Bytes
  import opened Cbor
  import Crc32c

  const FIXED: nat := 24         // RAW_HEADER.size
  const PREFIX: nat := 12        // RAW_FRAME.size
  const MAX_HEADER: nat := 64 * 1024
  const MAX_FRAME: nat := 64 * 1024 * 1024
  const MAGIC: seq<byte> := [0x42, 0x4D, 0x52, 0x43, 0x48, 0x4E, 0x4B, 0x1A]

  datatype Fault =
    | TruncatedHeader | MagicMismatch | VersionMismatch | HeaderFlags | HeaderOversized
    | TruncatedHeaderBody | HeaderCrcMismatch | HeaderNotCanonical | HeaderRejected | FrameLimitUnsupported
    | TruncatedPrefix | FrameOversized | FrameFlags | TruncatedBody | FrameCrcMismatch
    | EnvelopeNotCanonical | EnvelopeRejected

  /** The field checks: the declared frame limit of an acceptable header, and the envelope test. */
  datatype Checks = Checks(frameLimit: Value -> Option<nat>, envelope: (Value, Value) -> bool)

  // --------------------------------------------------------------- checksum bytes

  /** The eight-bit word with the value of the byte. */
  function BitsOf(b: byte): bv8 {
    if b == 0 then 0 else BitsOf(b - 1) + 1
  }

  function Bits(s: seq<byte>): (r: seq<bv8>)
    ensures |r| == |s|
    ensures forall i :: 0 <= i < |s| ==> r[i] == BitsOf(s[i])
  {
    seq(|s|, i requires 0 <= i < |s| => BitsOf(s[i]))
  }

  function CrcOf(s: seq<byte>): (n: nat)
    ensures n < 0x1_0000_0000
  {
    Crc32c.Crc(Bits(s)) as nat
  }

  lemma ByteSuccessor(c: bv8)
    requires c as nat < 255
    ensures (c + 1) as nat == c as nat + 1
  {
  }

  lemma {:induction false} BitsValue(b: byte)
    ensures BitsOf(b) as nat == b
  {
    if b > 0 {
      BitsValue(b - 1);
      ByteSuccessor(BitsOf(b - 1));
    }
  }

  lemma CrcValue(c: bv32)
    ensures (c as nat) as bv32 == c
  {
  }

  lemma BitsInjective(a: byte, b: byte)
    requires BitsOf(a) == BitsOf(b)
    ensures a == b
  {
    hide BitsOf;
    BitsValue(a);
    BitsValue(b);
  }

  /** Any change confined to four consecutive bytes changes the stored checksum. */
  lemma BurstChangesCrc(x: seq<byte>, y: seq<byte>, i: nat)
    requires |x| == |y| && x != y
    requires forall j :: 0 <= j < |x| && !(i <= j < i + 4) ==> x[j] == y[j]
    ensures CrcOf(x) != CrcOf(y)
  {
    hide BitsOf, Crc32c.Crc;
    var k :| 0 <= k < |x| && x[k] != y[k];
    if Bits(x)[k] == Bits(y)[k] {
      BitsInjective(x[k], y[k]);
    }
    Crc32c.BurstDetected(Bits(x), Bits(y), i);
    CrcValue(Crc32c.Crc(Bits(x)));
    CrcValue(Crc32c.Crc(Bits(y)));
  }

  // ------------------------------------------------------------- the chunk writer

  /** The fixed header before its checksum: magic, version 1.0, byte-order mark, flags, body length. */
  function HeaderStart(length: nat): (s: seq<byte>)
    ensures |s| == 20
  {
    MAGIC + [1, 0] + [0xFE, 0xFF] + ToBE(0, 4) + ToBE(length, 4)
  }

  function HeaderBytes(body: seq<byte>): seq<byte> {
    HeaderStart(|body|) + ToBE(CrcOf(HeaderStart(|body|) + body), 4) + body
  }

  /** A frame prefix before its checksum: body length, flags, reserved. */
  function FrameStart(length: nat): (s: seq<byte>)
    ensures |s| == 8
  {
    ToBE(length, 4) + ToBE(0, 2) + ToBE(0, 2)
  }

  function FrameBytes(body: seq<byte>): seq<byte> {
    FrameStart(|body|) + ToBE(CrcOf(FrameStart(|body|) + body), 4) + body
  }

  function FramesBytes(bodies: seq<seq<byte>>): seq<byte> {
    if bodies == [] then [] else FrameBytes(bodies[0]) + FramesBytes(bodies[1..])
  }

  // -------------------------------------------------------------------- the scanner

  datatype Frame = Frame(body: seq<byte>, envelope: Value)

  /** The decoded header, its frame limit, and where the frames start. */
  datatype Opening = Opening(header: Value, limit: nat, end: nat)

  function ReadHeader(raw: seq<byte>, checks: Checks): (r: Result<Opening, Fault>)
    ensures r.Ok? ==> FIXED <= r.value.end <= |raw| && r.value.limit <= MAX_FRAME
  {
    if |raw| < FIXED then Err(TruncatedHeader)
    else if raw[..8] != MAGIC then Err(MagicMismatch)
    else if raw[8] != 1 || raw[9] != 0 then Err(VersionMismatch)
    else if FromBE(raw[10..12]) != 0xFEFF || FromBE(raw[12..16]) != 0 then Err(HeaderFlags)
    else
      var length := FromBE(raw[16..20]);
      if length > MAX_HEADER then Err(HeaderOversized)
      else if FIXED + length > |raw| then Err(TruncatedHeaderBody)
      else
        var body := raw[FIXED..FIXED + length];
        if CrcOf(raw[..20] + body) != FromBE(raw[20..24]) then Err(HeaderCrcMismatch)
        else
          match DecodeCanonical(body)
          case None => Err(HeaderNotCanonical)
          case Some(v) =>
            match checks.frameLimit(v)
            case None => Err(HeaderRejected)
            case Some(limit) =>
              if limit < 1024 || limit > MAX_FRAME then Err(FrameLimitUnsupported)
              else Ok(Opening(v, limit, FIXED + length))
  }

  /** The frame that starts `s`. */
  function ReadFrame(s: seq<byte>, checks: Checks, header: Value, limit: nat): (r: Result<Frame, Fault>)
    ensures r.Ok? ==> PREFIX + |r.value.body| <= |s|
  {
    if |s| < PREFIX then Err(TruncatedPrefix)
    else
      var length := FromBE(s[..4]);
      if length > limit then Err(FrameOversized)
      else if FromBE(s[4..6]) != 0 || FromBE(s[6..8]) != 0 then Err(FrameFlags)
      else if PREFIX + length > |s| then Err(TruncatedBody)
      else
        var body := s[PREFIX..PREFIX + length];
        if CrcOf(s[..8] + body) != FromBE(s[8..12]) then Err(FrameCrcMismatch)
        else
          match DecodeCanonical(body)
          case None => Err(EnvelopeNotCanonical)
          case Some(v) => if checks.envelope(v, header) then Ok(Frame(body, v)) else Err(EnvelopeRejected)
  }

  function ReadFrames(s: seq<byte>, checks: Checks, header: Value, limit: nat): Result<seq<Frame>, Fault>
    decreases |s|
  {
    if s == [] then Ok([])
    else
      match ReadFrame(s, checks, header, limit)
      case Err(f) => Err(f)
      case Ok(frame) =>
        match ReadFrames(s[PREFIX + |frame.body|..], checks, header, limit)
        case Err(f) => Err(f)
        case Ok(rest) => Ok([frame] + rest)
  }

  function Scan(raw: seq<byte>, checks: Checks): Result<(Value, seq<Frame>), Fault> {
    match ReadHeader(raw, checks)
    case Err(f) => Err(f)
    case Ok(o) =>
      match ReadFrames(raw[o.end..], checks, o.header, o.limit)
      case Err(f) => Err(f)
      case Ok(frames) => Ok((o.header, frames))
  }

  /** `_scan_raw_chunk`: the offset walks over the frames until the input is used up. */
  method ScanRawChunk(raw: seq<byte>, checks: Checks) returns (r: Result<(Value, seq<Frame>), Fault>)
    ensures r == Scan(raw, checks)
  {
    hide ReadHeader, ReadFrame;
    var opening := ReadHeader(raw, checks);
    if opening.Err? {
      return Err(opening.error);
    }
    var Opening(header, limit, end) := opening.value;
    var records: seq<Frame> := [];
    var offset := end;
    ghost var whole := ReadFrames(raw[end..], checks, header, limit);
    assert whole.Ok? ==> [] + whole.value == whole.value;
    while offset < |raw|
      invariant offset <= |raw|
      invariant match ReadFrames(raw[offset..], checks, header, limit)
                case Err(f) => whole == Err(f)
                case Ok(rest) => whole == Ok(records + rest)
    {
      var frame := ReadFrame(raw[offset..], checks, header, limit);
      if frame.Err? {
        return Err(frame.error);
      }
      var next := offset + PREFIX + |frame.value.body|;
      assert raw[offset..][PREFIX + |frame.value.body|..] == raw[next..];
      ghost var later := ReadFrames(raw[next..], checks, header, limit);
      assert later.Ok? ==> records + ([frame.value] + later.value) == (records + [frame.value]) + later.value;
      records, offset := records + [frame.value], next;
    }
    assert raw[offset..] == [];
    assert records + [] == records;
    return Ok((header, records));
  }

  // ----------------------------------------------------------------------- theorems

  predicate GoodFrame(frame: Frame, checks: Checks, header: Value, limit: nat) {
    && |frame.body| <= limit
    && DecodeCanonical(frame.body) == Some(frame.envelope)
    && checks.envelope(frame.envelope, header)
  }

  predicate GoodFrames(frames: seq<Frame>, checks: Checks, header: Value, limit: nat) {
    forall i :: 0 <= i < |frames| ==> GoodFrame(frames[i], checks, header, limit)
  }

  function Bodies(frames: seq<Frame>): (r: seq<seq<byte>>)
    ensures |r| == |frames| && forall i :: 0 <= i < |r| ==> r[i] == frames[i].body
  {
    if frames == [] then [] else [frames[0].body] + Bodies(frames[1..])
  }

  /** Four big-endian bytes are determined by their value. */
  lemma FourBytes(s: seq<byte>, v: nat)
    requires |s| == 4
    ensures FromBE(s) == v <==> v < 0x1_0000_0000 && s == ToBE(v, 4)
  {
    PowersOf256();
    FromBEBound(s);
    ToFromBE(s);
    if v < 0x1_0000_0000 && s == ToBE(v, 4) {
      FromToBE(v, 4);
    }
  }

  lemma TwoBytes(s: seq<byte>, v: nat)
    requires |s| == 2
    ensures FromBE(s) == v <==> v < 0x1_0000 && s == ToBE(v, 2)
  {
    PowersOf256();
    FromBEBound(s);
    ToFromBE(s);
    if v < 0x1_0000 && s == ToBE(v, 2) {
      FromToBE(v, 2);
    }
  }

  /** A frame with given parts starts `s` exactly when each part stands in its place. */
  lemma SplitFrame(s: seq<byte>, n: nat, body: seq<byte>, crc: nat)
    requires |body| == n && PREFIX + n <= |s|
    ensures FrameStart(n) + ToBE(crc, 4) + body <= s <==>
            && s[..4] == ToBE(n, 4) && s[4..6] == ToBE(0, 2) && s[6..8] == ToBE(0, 2)
            && s[8..12] == ToBE(crc, 4) && s[12..12 + n] == body
    ensures s[..4] == ToBE(n, 4) && s[4..6] == ToBE(0, 2) && s[6..8] == ToBE(0, 2) ==> s[..8] == FrameStart(n)
  {
    hide ToBE;
    var f := FrameStart(n) + ToBE(crc, 4) + body;
    assert f[..4] == ToBE(n, 4) && f[4..6] == ToBE(0, 2) && f[6..8] == ToBE(0, 2);
    assert f[8..12] == ToBE(crc, 4) && f[12..] == body;
    assert s[..12 + n] == s[..4] + s[4..6] + s[6..8] + s[8..12] + s[12..12 + n];
    assert s[..8] == s[..4] + s[4..6] + s[6..8];
    if f <= s {
      assert f == s[..12 + n];
    }
  }

  /** The frame reader accepts exactly the frames the writer produces from good bodies. */
  lemma ReadFrameIff(s: seq<byte>, checks: Checks, header: Value, limit: nat, frame: Frame)
    requires limit <= MAX_FRAME
    ensures ReadFrame(s, checks, header, limit) == Ok(frame) <==>
            GoodFrame(frame, checks, header, limit) && FrameBytes(frame.body) <= s
  {
    hide CrcOf, DecodeCanonical, FromBE, ToBE, FrameStart;
    var n := |frame.body|;
    var crc := CrcOf(FrameStart(n) + frame.body);
    if PREFIX + n <= |s| && n <= limit {
      FourBytes(s[..4], n);
      TwoBytes(s[4..6], 0);
      TwoBytes(s[6..8], 0);
      FourBytes(s[8..12], crc);
      SplitFrame(s, n, frame.body, crc);
    }
  }

  lemma PrefixMeans(a: seq<byte>, s: seq<byte>, b: seq<byte>)
    ensures s == a + b <==> a <= s && b == s[|a|..]
  {
    if a <= s {
      assert s == a + s[|a|..];
    }
    assert (a + b)[|a|..] == b;
  }

  lemma GoodFirst(first: Frame, tail: seq<Frame>, checks: Checks, header: Value, limit: nat)
    ensures GoodFrames([first] + tail, checks, header, limit) <==>
            GoodFrame(first, checks, header, limit) && GoodFrames(tail, checks, header, limit)
  {
    hide GoodFrame;
    var all := [first] + tail;
    assert all[0] == first;
    assert forall i :: 0 <= i < |tail| ==> tail[i] == all[i + 1];
  }

  /** Reading frames succeeds exactly on the concatenation of good frames, and returns them in order. */
  lemma {:induction false} ReadFramesIff(s: seq<byte>, checks: Checks, header: Value, limit: nat, frames: seq<Frame>)
    requires limit <= MAX_FRAME
    ensures ReadFrames(s, checks, header, limit) == Ok(frames) <==>
            GoodFrames(frames, checks, header, limit) && s == FramesBytes(Bodies(frames))
    decreases |s|
  {
    hide ReadFrame, GoodFrame, GoodFrames, FrameBytes;
    if s != [] && frames != [] {
      var first, tail := frames[0], frames[1..];
      ReadFrameIff(s, checks, header, limit, first);
      assert frames == [first] + tail && Bodies(frames)[1..] == Bodies(tail);
      GoodFirst(first, tail, checks, header, limit);
      FrameSize(first.body);
      PrefixMeans(FrameBytes(first.body), s, FramesBytes(Bodies(tail)));
      if FrameBytes(first.body) <= s {
        ReadFramesIff(s[|FrameBytes(first.body)|..], checks, header, limit, tail);
      }
    } else if frames != [] {
      FrameSize(frames[0].body);
    } else {
      assert GoodFrames(frames, checks, header, limit) by {
        NoFramesGood(checks, header, limit);
      }
    }
  }

  lemma NoFramesGood(checks: Checks, header: Value, limit: nat)
    ensures GoodFrames([], checks, header, limit)
  {
  }

  lemma FrameSize(body: seq<byte>)
    ensures |FrameBytes(body)| == PREFIX + |body|
  {
  }

  predicate GoodHeader(body: seq<byte>, checks: Checks, header: Value, limit: nat) {
    && |body| <= MAX_HEADER
    && DecodeCanonical(body) == Some(header)
    && checks.frameLimit(header) == Some(limit)
    && 1024 <= limit <= MAX_FRAME
  }

  lemma SplitHeader(s: seq<byte>, n: nat, body: seq<byte>, crc: nat)
    requires |body| == n && FIXED + n <= |s|
    ensures HeaderStart(n) + ToBE(crc, 4) + body <= s <==>
            && s[..8] == MAGIC && s[8..10] == [1, 0] && s[10..12] == [0xFE, 0xFF] && s[12..16] == ToBE(0, 4)
            && s[16..20] == ToBE(n, 4) && s[20..24] == ToBE(crc, 4) && s[24..24 + n] == body
    ensures (&& s[..8] == MAGIC && s[8..10] == [1, 0] && s[10..12] == [0xFE, 0xFF] && s[12..16] == ToBE(0, 4)
             && s[16..20] == ToBE(n, 4)) ==> s[..20] == HeaderStart(n)
  {
    hide ToBE;
    var f := HeaderStart(n) + ToBE(crc, 4) + body;
    assert f[..8] == MAGIC && f[8..10] == [1, 0] && f[10..12] == [0xFE, 0xFF] && f[12..16] == ToBE(0, 4);
    assert f[16..20] == ToBE(n, 4) && f[20..24] == ToBE(crc, 4) && f[24..] == body;
    assert s[..20] == s[..8] + s[8..10] + s[10..12] + s[12..16] + s[16..20];
    assert s[..24 + n] == s[..20] + s[20..24] + s[24..24 + n];
    if f <= s {
      assert f == s[..24 + n];
    }
  }

  lemma ByteOrderMark(s: seq<byte>)
    requires |s| == 2
    ensures FromBE(s) == 0xFEFF <==> s == [0xFE, 0xFF]
  {
    TwoBytes(s, 0xFEFF);
    assert ToBE(0xFEFF, 2) == ToBE(0xFE, 1) + [0xFF];
    assert ToBE(0xFE, 1) == ToBE(0, 0) + [0xFE];
  }

  /** The header reader accepts exactly what the writer produces from a good header body. */
  lemma ReadHeaderIff(raw: seq<byte>, checks: Checks, body: seq<byte>, header: Value, limit: nat)
    ensures ReadHeader(raw, checks) == Ok(Opening(header, limit, FIXED + |body|)) && FIXED + |body| <= |raw|
              && raw[FIXED..FIXED + |body|] == body
            <==> GoodHeader(body, checks, header, limit) && HeaderBytes(body) <= raw
  {
    hide CrcOf, DecodeCanonical, FromBE, ToBE, HeaderStart;
    var n := |body|;
    var crc := CrcOf(HeaderStart(n) + body);
    if FIXED + n <= |raw| && n <= MAX_HEADER {
      ByteOrderMark(raw[10..12]);
      FourBytes(raw[12..16], 0);
      FourBytes(raw[16..20], n);
      FourBytes(raw[20..24], crc);
      assert raw[8..10] == [raw[8], raw[9]];
      SplitHeader(raw, n, body, crc);
    }
  }

  /** Acceptance means: exactly one good header, then exactly the returned frames, and nothing else. */
  lemma ScanSound(raw: seq<byte>, checks: Checks)
    requires Scan(raw, checks).Ok?
    ensures var (header, frames) := Scan(raw, checks).value;
            var end := ReadHeader(raw, checks).value.end;
            var body := raw[FIXED..end];
            var limit := ReadHeader(raw, checks).value.limit;
            && GoodHeader(body, checks, header, limit)
            && GoodFrames(frames, checks, header, limit)
            && raw == HeaderBytes(body) + FramesBytes(Bodies(frames))
  {
    hide ReadHeader, ReadFrames, GoodHeader, GoodFrames, FramesBytes;
    var Opening(header, limit, end) := ReadHeader(raw, checks).value;
    var body := raw[FIXED..end];
    var frames := Scan(raw, checks).value.1;
    ReadHeaderIff(raw, checks, body, header, limit);
    ReadFramesIff(raw[end..], checks, header, limit, frames);
    PrefixMeans(HeaderBytes(body), raw, FramesBytes(Bodies(frames)));
  }

  /** Scanning any well-formed framing of good bodies returns those bodies in order. */
  lemma ScanComplete(checks: Checks, body: seq<byte>, header: Value, limit: nat, frames: seq<Frame>)
    requires GoodHeader(body, checks, header, limit) && GoodFrames(frames, checks, header, limit)
    ensures Scan(HeaderBytes(body) + FramesBytes(Bodies(frames)), checks) == Ok((header, frames))
  {
    hide ReadHeader, ReadFrames, GoodFrames, FramesBytes;
    var raw := HeaderBytes(body) + FramesBytes(Bodies(frames));
    PrefixMeans(HeaderBytes(body), raw, FramesBytes(Bodies(frames)));
    ReadHeaderIff(raw, checks, body, header, limit);
    ReadFramesIff(raw[FIXED + |body|..], checks, header, limit, frames);
  }

  // ------------------------------------------------------------------ the layout

  /** Four bytes as the big-endian number they stand for. */
  function Word32(s: seq<byte>, at: nat): nat
    requires at + 4 <= |s|
  {
    s[at] as nat * 0x100_0000 + s[at + 1] as nat * 0x1_0000 + s[at + 2] as nat * 0x100 + s[at + 3]
  }

  lemma BigEndian(s: seq<byte>, at: nat)
    requires at + 4 <= |s|
    ensures FromBE(s[at..at + 4]) == Word32(s, at)
    ensures FromBE(s[at..at + 2]) == s[at] as nat * 0x100 + s[at + 1]
  {
    var w, h := s[at..at + 4], s[at..at + 2];
    assert w[..3][..2] == w[..2] && w[..2][..1] == w[..1] && w[..1][..0] == [];
    assert FromBE(w[..1]) == s[at];
    assert FromBE(w[..2]) == 0x100 * s[at] as nat + s[at + 1];
    assert FromBE(w[..3]) == 0x100 * FromBE(w[..2]) + s[at + 2];
    assert w[..2] == h;
  }

  /**
   The bytes of an accepted chunk: "BMRCHNK" and 0x1A, version 1.0, the byte-order mark, no flags,
   the length of the header body and its checksum, each big-endian and in its place.
   */
  lemma AcceptedLayout(raw: seq<byte>, checks: Checks)
    requires ReadHeader(raw, checks).Ok?
    ensures |raw| >= 24
    ensures forall i :: 0 <= i < 7 ==> raw[i] == "BMRCHNK"[i] as nat
    ensures raw[7] == 0x1A && raw[8] == 1 && raw[9] == 0 && raw[10] == 0xFE && raw[11] == 0xFF
    ensures raw[12] == raw[13] == raw[14] == raw[15] == 0
    ensures var length := Word32(raw, 16);
            && length <= 65536 && 24 + length <= |raw| && ReadHeader(raw, checks).value.end == 24 + length
            && Word32(raw, 20) == CrcOf(raw[..20] + raw[24..24 + length])
            && 1024 <= ReadHeader(raw, checks).value.limit <= 67108864
  {
    hide CrcOf, DecodeCanonical, FromBE;
    BigEndian(raw, 10);
    BigEndian(raw, 12);
    BigEndian(raw, 16);
    BigEndian(raw, 20);
    assert forall i :: 0 <= i < 8 ==> raw[..8][i] == raw[i];
    MagicSpelled();
  }

  lemma MagicSpelled()
    ensures |MAGIC| == 8 && MAGIC[7] == 0x1A && forall i :: 0 <= i < 7 ==> MAGIC[i] == "BMRCHNK"[i] as nat
  {
    assert 'B' as nat == 0x42 && 'M' as nat == 0x4D && 'R' as nat == 0x52 && 'C' as nat == 0x43;
    assert 'H' as nat == 0x48 && 'N' as nat == 0x4E && 'K' as nat == 0x4B;
  }

  /** A header body is good exactly within these limits. */
  lemma GoodHeaderLimits(body: seq<byte>, checks: Checks, header: Value, limit: nat)
    ensures GoodHeader(body, checks, header, limit) <==>
            && |body| <= 65536 && DecodeCanonical(body) == Some(header)
            && checks.frameLimit(header) == Some(limit) && 1024 <= limit <= 67108864
  {
    hide DecodeCanonical;
  }

  /** The bytes of an accepted frame: body length, four zero bytes, and the checksum of all but itself. */
  lemma AcceptedFrameLayout(s: seq<byte>, checks: Checks, header: Value, limit: nat)
    requires ReadFrame(s, checks, header, limit).Ok?
    ensures |s| >= 12 && s[4] == s[5] == s[6] == s[7] == 0
    ensures var length := Word32(s, 0);
            && length <= limit && 12 + length <= |s|
            && ReadFrame(s, checks, header, limit).value.body == s[12..12 + length]
            && Word32(s, 8) == CrcOf(s[..8] + s[12..12 + length])
  {
    hide CrcOf, DecodeCanonical, FromBE;
    BigEndian(s, 0);
    BigEndian(s, 4);
    BigEndian(s, 6);
    BigEndian(s, 8);
    assert s[0..4] == s[..4];
  }

  // ------------------------------------------------------------------------ damage

  /** The body was changed, and only within four consecutive bytes. */
  predicate Damaged(body: seq<byte>, damaged: seq<byte>, i: nat) {
    && |damaged| == |body| && damaged != body
    && forall j :: 0 <= j < |body| && !(i <= j < i + 4) ==> body[j] == damaged[j]
  }

  /** A frame, and a header, that still carry the checksum of the undamaged body. */
  function DamagedFrame(body: seq<byte>, damaged: seq<byte>): seq<byte> {
    FrameStart(|body|) + ToBE(CrcOf(FrameStart(|body|) + body), 4) + damaged
  }

  function DamagedHeader(body: seq<byte>, damaged: seq<byte>): seq<byte> {
    HeaderStart(|body|) + ToBE(CrcOf(HeaderStart(|body|) + body), 4) + damaged
  }

  lemma DamageChangesCrc(start: seq<byte>, body: seq<byte>, damaged: seq<byte>, i: nat)
    requires Damaged(body, damaged, i)
    ensures CrcOf(start + body) != CrcOf(start + damaged)
  {
    hide CrcOf;
    var x, y, n := start + body, start + damaged, |start|;
    assert x[n..] == body && y[n..] == damaged;
    forall j | 0 <= j < |x| && !(n + i <= j < n + i + 4) ensures x[j] == y[j] {
      if j >= n {
        assert x[j] == body[j - n] && y[j] == damaged[j - n];
      }
    }
    BurstChangesCrc(x, y, n + i);
  }

  /** A frame whose body was changed within four consecutive bytes is always rejected by its checksum. */
  lemma DamagedFrameRejected(checks: Checks, header: Value, limit: nat, body: seq<byte>, damaged: seq<byte>, i: nat, rest: seq<byte>)
    requires |body| <= limit <= MAX_FRAME && Damaged(body, damaged, i)
    ensures ReadFrame(DamagedFrame(body, damaged) + rest, checks, header, limit) == Err(FrameCrcMismatch)
  {
    hide CrcOf, DecodeCanonical, FromBE, ToBE, FrameStart;
    var n := |body|;
    var crc := CrcOf(FrameStart(n) + body);
    var s := DamagedFrame(body, damaged) + rest;
    SplitFrame(s, n, damaged, crc);
    assert DamagedFrame(body, damaged) <= s;
    FourBytes(s[..4], n);
    TwoBytes(s[4..6], 0);
    TwoBytes(s[6..8], 0);
    FourBytes(s[8..12], crc);
    DamageChangesCrc(FrameStart(n), body, damaged, i);
  }

  lemma ErrorAfterFrame(checks: Checks, header: Value, limit: nat, first: Frame, later: seq<byte>, f: Fault)
    requires limit <= MAX_FRAME && GoodFrame(first, checks, header, limit)
    requires ReadFrames(later, checks, header, limit) == Err(f)
    ensures ReadFrames(FrameBytes(first.body) + later, checks, header, limit) == Err(f)
  {
    hide ReadFrame, GoodFrame, FrameBytes;
    var all := FrameBytes(first.body) + later;
    PrefixMeans(FrameBytes(first.body), all, later);
    FrameSize(first.body);
    ReadFrameIff(all, checks, header, limit, first);
  }

  /** Good frames in front of an error do not change it. */
  lemma {:induction false} ErrorAfterFrames(checks: Checks, header: Value, limit: nat, frames: seq<Frame>, s: seq<byte>, f: Fault)
    requires limit <= MAX_FRAME && GoodFrames(frames, checks, header, limit)
    requires ReadFrames(s, checks, header, limit) == Err(f)
    ensures ReadFrames(FramesBytes(Bodies(frames)) + s, checks, header, limit) == Err(f)
    decreases |frames|
  {
    hide ReadFrames, GoodFrame, GoodFrames, FrameBytes;
    if frames == [] {
      assert FramesBytes(Bodies(frames)) + s == s;
    } else {
      var first, tail := frames[0], frames[1..];
      assert frames == [first] + tail && Bodies(frames)[1..] == Bodies(tail);
      GoodFirst(first, tail, checks, header, limit);
      var head, later := FrameBytes(first.body), FramesBytes(Bodies(tail));
      ErrorAfterFrames(checks, header, limit, tail, s, f);
      ErrorAfterFrame(checks, header, limit, first, later + s, f);
      assert head + later + s == head + (later + s);
    }
  }

  /** A chunk with one damaged frame body is rejected, whatever stands after it. */
  lemma DamagedChunkRejected(checks: Checks, headerBody: seq<byte>, header: Value, limit: nat, before: seq<Frame>,
                             body: seq<byte>, damaged: seq<byte>, i: nat, rest: seq<byte>)
    requires GoodHeader(headerBody, checks, header, limit) && GoodFrames(before, checks, header, limit)
    requires |body| <= limit && Damaged(body, damaged, i)
    ensures Scan(HeaderBytes(headerBody) + (FramesBytes(Bodies(before)) + (DamagedFrame(body, damaged) + rest)), checks)
            == Err(FrameCrcMismatch)
  {
    hide ReadHeader, ReadFrame, GoodFrames, FramesBytes, Damaged;
    var s := DamagedFrame(body, damaged) + rest;
    DamagedFrameRejected(checks, header, limit, body, damaged, i, rest);
    assert |s| > 0;
    assert ReadFrames(s, checks, header, limit) == Err(FrameCrcMismatch);
    var frames := FramesBytes(Bodies(before)) + s;
    ErrorAfterFrames(checks, header, limit, before, s, FrameCrcMismatch);
    var raw := HeaderBytes(headerBody) + frames;
    PrefixMeans(HeaderBytes(headerBody), raw, frames);
    ReadHeaderIff(raw, checks, headerBody, header, limit);
  }

  /** A chunk whose header body was changed within four consecutive bytes is rejected. */
  lemma DamagedHeaderRejected(checks: Checks, body: seq<byte>, damaged: seq<byte>, i: nat, rest: seq<byte>)
    requires |body| <= MAX_HEADER && Damaged(body, damaged, i)
    ensures Scan(DamagedHeader(body, damaged) + rest, checks) == Err(HeaderCrcMismatch)
  {
    hide CrcOf, DecodeCanonical, FromBE, ToBE, HeaderStart;
    var n := |body|;
    var crc := CrcOf(HeaderStart(n) + body);
    var raw := DamagedHeader(body, damaged) + rest;
    SplitHeader(raw, n, damaged, crc);
    assert DamagedHeader(body, damaged) <= raw;
    ByteOrderMark(raw[10..12]);
    FourBytes(raw[12..16], 0);
    FourBytes(raw[16..20], n);
    FourBytes(raw[20..24], crc);
    assert raw[8..10] == [raw[8], raw[9]];
    DamageChangesCrc(HeaderStart(n), body, damaged, i);
  }
}
