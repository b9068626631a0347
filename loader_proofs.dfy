/** What a load promises as a whole: the image goes out in 246-byte chunks at
    offsets 0, 246, 492, ..., the running checksum is the byte sum of what
    was sent, and verification accepts exactly the sum of the whole image.
    The invariant Inv holds of a fresh loader and is kept by every entry
    point (Load, Execute, ClientFinished), whatever the device answers. */
module LoaderProofs {
  import opened Wire
  import CC = CustomClient
  import opened Loader

  /** The Program requests of a log, in the order they were issued. */
  function ProgramRequests(rs: seq<Request>): seq<Request> {
    if rs == [] then []
    else ProgramRequests(rs[..|rs| - 1]) + (if rs[|rs| - 1].sub == CC.ProgramFlash then [rs[|rs| - 1]] else [])
  }

  lemma ProgramRequestsSnoc(rs: seq<Request>, r: Request)
    ensures ProgramRequests(rs + [r]) ==
              ProgramRequests(rs) + (if r.sub == CC.ProgramFlash then [r] else [])
  {
    assert (rs + [r])[..|rs|] == rs;
  }

  /** The Program requests that send `d` when its first byte lies at file
      offset `base`: full chunks of CHUNK_SIZE bytes, then the remainder. */
  function ChunkList(d: seq<byte>, base: nat): seq<Request>
    decreases |d|
  {
    if |d| == 0 then []
    else
      var n := if |d| < CHUNK_SIZE then |d| else CHUNK_SIZE;
      [Request(CC.ProgramFlash, Le32(base) + d[..n])] + ChunkList(d[n..], base + n)
  }

  /** Sending one more chunk after whole chunks extends the list by one
      request at the next offset. */
  lemma {:induction false} ChunkListSnoc(d: seq<byte>, c: seq<byte>, base: nat)
    requires |d| % CHUNK_SIZE == 0
    requires 1 <= |c| <= CHUNK_SIZE
    ensures ChunkList(d + c, base) ==
              ChunkList(d, base) + [Request(CC.ProgramFlash, Le32(base + |d|) + c)]
    decreases |d|
  {
    if |d| == 0 {
      assert d + c == c;
      assert c[..|c|] == c;
      assert c[|c|..] == [];
    } else {
      var dc := d + c;
      assert dc[..CHUNK_SIZE] == d[..CHUNK_SIZE];
      assert dc[CHUNK_SIZE..] == d[CHUNK_SIZE..] + c;
      ChunkListSnoc(d[CHUNK_SIZE..], c, base + CHUNK_SIZE);
    }
  }

  /** An image of S bytes is sent in ceil(S / 246) chunks. */
  lemma {:induction false} ChunkCount(d: seq<byte>, base: nat)
    ensures |ChunkList(d, base)| == (|d| + CHUNK_SIZE - 1) / CHUNK_SIZE
    decreases |d|
  {
    if |d| > CHUNK_SIZE {
      ChunkCount(d[CHUNK_SIZE..], base + CHUNK_SIZE);
    } else if |d| > 0 {
      assert d[|d|..] == [];
    }
  }

  /** A slice of a suffix is a slice of the whole, shifted. */
  lemma SliceOfSuffix(d: seq<byte>, k: nat, lo: nat, hi: nat)
    requires k <= |d| && lo <= hi <= |d| - k
    ensures d[k..][lo..hi] == d[k + lo..k + hi]
  {
    assert forall m :: 0 <= m < hi - lo ==> d[k..][lo..hi][m] == d[k + lo + m];
  }

  /** Chunk i starts at offset base + 246 * i and carries the next (at most)
      246 bytes of the image. */
  lemma {:induction false} ChunkAt(d: seq<byte>, base: nat, i: nat)
    requires i < |ChunkList(d, base)|
    ensures CHUNK_SIZE * i < |d|
    ensures var lo := CHUNK_SIZE * i;
            var hi := if lo + CHUNK_SIZE <= |d| then lo + CHUNK_SIZE else |d|;
            ChunkList(d, base)[i] == Request(CC.ProgramFlash, Le32(base + lo) + d[lo..hi])
    decreases i
  {
    if i > 0 {
      ChunkListTail(d, base, i);
      var rest := d[CHUNK_SIZE..];
      ChunkAt(rest, base + CHUNK_SIZE, i - 1);
      var lo' := CHUNK_SIZE * (i - 1);
      assert CHUNK_SIZE * i == lo' + CHUNK_SIZE;
      var hi' := if lo' + CHUNK_SIZE <= |rest| then lo' + CHUNK_SIZE else |rest|;
      SliceOfSuffix(d, CHUNK_SIZE, lo', hi');
    }
  }

  /** Every chunk after the first lies in the image past its first full chunk. */
  lemma ChunkListTail(d: seq<byte>, base: nat, i: nat)
    requires 0 < i < |ChunkList(d, base)|
    ensures |d| > CHUNK_SIZE
    ensures i - 1 < |ChunkList(d[CHUNK_SIZE..], base + CHUNK_SIZE)|
    ensures ChunkList(d, base)[i] == ChunkList(d[CHUNK_SIZE..], base + CHUNK_SIZE)[i - 1]
  {
  }

  /** The device decodes chunk i's header as its offset (modulo 2^32). */
  lemma ChunkOffset(d: seq<byte>, base: nat, i: nat)
    requires i < |ChunkList(d, base)|
    ensures CHUNK_SIZE * i < |d|
    ensures |ChunkList(d, base)[i].payload| >= 4
    ensures DecodeLe32(ChunkList(d, base)[i].payload[..4]) == (base + CHUNK_SIZE * i) % TWO_TO_32
  {
    ChunkAt(d, base, i);
    var p := ChunkList(d, base)[i].payload;
    assert p[..4] == Le32(base + CHUNK_SIZE * i);
    Le32RoundTrip(base + CHUNK_SIZE * i);
  }

  /** Offsets of distinct chunks of an image below 4 GiB are strictly
      increasing as the device decodes them: 0, 246, 492, ... */
  lemma ChunkOffsetsIncrease(d: seq<byte>, i: nat, j: nat)
    requires |d| <= TWO_TO_32
    requires i < j < |ChunkList(d, 0)|
    ensures |ChunkList(d, 0)[i].payload| >= 4 && |ChunkList(d, 0)[j].payload| >= 4
    ensures DecodeLe32(ChunkList(d, 0)[i].payload[..4]) == CHUNK_SIZE * i
    ensures DecodeLe32(ChunkList(d, 0)[i].payload[..4]) < DecodeLe32(ChunkList(d, 0)[j].payload[..4])
  {
    ChunkOffset(d, 0, i);
    ChunkOffset(d, 0, j);
    OffsetsBelowLimit(i, j, |d|);
  }

  /** Offsets of chunks inside an image below 4 GiB do not wrap. */
  lemma OffsetsBelowLimit(i: nat, j: nat, size: nat)
    requires i < j && CHUNK_SIZE * j < size <= TWO_TO_32
    ensures (CHUNK_SIZE * i) % TWO_TO_32 == CHUNK_SIZE * i < (CHUNK_SIZE * j) % TWO_TO_32
  {
  }

  /** A full chunk fits a Modbus RTU frame: server address, function code,
      tag, 4-byte header, the chunk and a 2-byte CRC stay within the 256-byte
      ADU of section 4.1 of the Modbus Application Protocol Specification. */
  lemma ProgramFrameFits(pos: nat, chunk: seq<byte>)
    requires |chunk| <= CHUNK_SIZE
    ensures var pdu := CC.EncodeRequest(CC.ProgramFlash, Le32(pos) + chunk);
            1 + 1 + |pdu.data| + 2 <= MAX_RTU_ADU
  {
  }

  /** The image bytes carried by a log of Program requests, headers dropped. */
  function Bodies(rs: seq<Request>): seq<byte> {
    if rs == [] then []
    else (if |rs[0].payload| < 4 then [] else rs[0].payload[4..]) + Bodies(rs[1..])
  }

  /** Writing every chunk's bytes one after another rebuilds the image. */
  lemma {:induction false} ChunksReassemble(d: seq<byte>, base: nat)
    ensures Bodies(ChunkList(d, base)) == d
    decreases |d|
  {
    if |d| > 0 {
      var n := if |d| < CHUNK_SIZE then |d| else CHUNK_SIZE;
      ChunksReassemble(d[n..], base + n);
      var cs := ChunkList(d, base);
      assert cs[1..] == ChunkList(d[n..], base + n);
      assert (Le32(base) + d[..n])[4..] == d[..n];
      assert d[..n] + d[n..] == d;
    }
  }

  /** A 500-byte image: three chunks at offsets 0, 246 and 492 carrying
      246, 246 and 8 bytes. */
  lemma FiveHundredByteImage(d: seq<byte>)
    requires |d| == 500
    ensures |ChunkList(d, 0)| == 3
    ensures ChunkList(d, 0)[0] == Request(CC.ProgramFlash, Le32(0) + d[0..246])
    ensures ChunkList(d, 0)[1] == Request(CC.ProgramFlash, Le32(246) + d[246..492])
    ensures ChunkList(d, 0)[2] == Request(CC.ProgramFlash, Le32(492) + d[492..500])
  {
    ChunkCount(d, 0);
    ChunkAt(d, 0, 0);
    ChunkAt(d, 0, 1);
    ChunkAt(d, 0, 2);
  }

  predicate AtEndStates(st: State) {
    st.VerifyFlash? || st.ResetDevice? || st.Finished?
  }

  /** What every reachable loader satisfies: the position is chunk-aligned
      (or at the end), the checksum is the sum of the bytes read so far, and
      the Program requests of the load are exactly the chunks of those
      bytes. */
  predicate Inv(s: Session) {
    var img := s.file.contents;
    && s.pos <= |img|
    && (s.pos % CHUNK_SIZE == 0 || s.pos == |img|)
    && (s.state.Idle? || s.state.EraseFlash? ==> s.pos == 0)
    && (!s.state.Idle? ==> s.checksum == Sum(img[..s.pos]) % 0x100)
    && ProgramRequests(s.requests) == ChunkList(img[..s.pos], 0)
    && (AtEndStates(s.state) ==> s.pos == |img|)
  }

  lemma InvFresh()
    ensures Inv(Fresh())
  {
  }

  lemma ModAdd(a: nat, b: nat)
    ensures (a % 0x100 + b) % 0x100 == (a + b) % 0x100
  {
  }

  lemma AlignedStep(p: nat)
    requires p % CHUNK_SIZE == 0
    ensures (p + CHUNK_SIZE) % CHUNK_SIZE == 0
  {
  }

  /** What the Program case of the second switch does to the fields. */
  lemma IssueProgramShape(s: Session)
    requires s.state.ProgramFlash?
    ensures var t, img, n := Issue(s), s.file.contents, ReadResult(s.file.readFails, |s.file.contents|, s.pos);
            && t.state == s.state && t.file == s.file
            && (n <= 0 ==> t.pos == s.pos && t.requests == s.requests && t.checksum == s.checksum)
            && (n > 0 ==>
                  && t.pos == s.pos + n
                  && t.requests == s.requests + [Request(CC.ProgramFlash, Le32(s.pos) + img[s.pos..s.pos + n])]
                  && t.checksum == (s.checksum + Sum(img[s.pos..s.pos + n])) % 0x100)
  {
  }

  /** Reading and sending one chunk keeps the chunk bookkeeping. */
  lemma {:induction false} ChunkStep(img: seq<byte>, pos: nat, n: int, checksum: byte, requests: seq<Request>)
    requires pos <= |img|
    requires pos % CHUNK_SIZE == 0 || pos == |img|
    requires checksum == Sum(img[..pos]) % 0x100
    requires ProgramRequests(requests) == ChunkList(img[..pos], 0)
    requires n == ReadResult(false, |img|, pos) && n > 0
    ensures pos + n <= |img|
    ensures (pos + n) % CHUNK_SIZE == 0 || pos + n == |img|
    ensures (checksum + Sum(img[pos..pos + n])) % 0x100 == Sum(img[..pos + n]) % 0x100
    ensures ProgramRequests(requests + [Request(CC.ProgramFlash, Le32(pos) + img[pos..pos + n])]) ==
              ChunkList(img[..pos + n], 0)
  {
    ChunkSumStep(img, pos, n);
    var chunk := img[pos..pos + n];
    assert img[..pos + n] == img[..pos] + chunk;
    ChunkListSnoc(img[..pos], chunk, 0);
    ProgramRequestsSnoc(requests, Request(CC.ProgramFlash, Le32(pos) + chunk));
    if n == CHUNK_SIZE {
      AlignedStep(pos);
    }
  }

  /** The checksum half of ChunkStep: the running sum extends by the chunk. */
  lemma ChunkSumStep(img: seq<byte>, pos: nat, n: nat)
    requires pos + n <= |img|
    ensures (Sum(img[..pos]) % 0x100 + Sum(img[pos..pos + n])) % 0x100 == Sum(img[..pos + n]) % 0x100
  {
    var chunk := img[pos..pos + n];
    assert img[..pos + n] == img[..pos] + chunk;
    SumConcat(img[..pos], chunk);
    ModAdd(Sum(img[..pos]), Sum(chunk));
  }

  /** The Program step of the second switch keeps the chunk bookkeeping. */
  lemma IssueProgramKeepsInv(s: Session)
    requires s.state.ProgramFlash?
    requires s.pos <= |s.file.contents|
    requires s.pos % CHUNK_SIZE == 0 || s.pos == |s.file.contents|
    requires s.checksum == Sum(s.file.contents[..s.pos]) % 0x100
    requires ProgramRequests(s.requests) == ChunkList(s.file.contents[..s.pos], 0)
    ensures Inv(Issue(s))
  {
    IssueProgramShape(s);
    var n := ReadResult(s.file.readFails, |s.file.contents|, s.pos);
    if n > 0 {
      InvAfterChunk(Issue(s), s.file.contents, s.pos, n, s.checksum, s.requests);
    } else {
      InvInProgramFlash(Issue(s));
    }
  }

  /** A session that has just sent the chunk read at pos keeps the invariant. */
  lemma InvAfterChunk(t: Session, img: seq<byte>, pos: nat, n: int, checksum: byte, requests: seq<Request>)
    requires pos <= |img|
    requires pos % CHUNK_SIZE == 0 || pos == |img|
    requires checksum == Sum(img[..pos]) % 0x100
    requires ProgramRequests(requests) == ChunkList(img[..pos], 0)
    requires n == ReadResult(false, |img|, pos) && n > 0
    requires t.state.ProgramFlash? && t.file.contents == img && t.pos == pos + n
    requires t.requests == requests + [Request(CC.ProgramFlash, Le32(pos) + img[pos..pos + n])]
    requires t.checksum == (checksum + Sum(img[pos..pos + n])) % 0x100
    ensures Inv(t)
  {
    ChunkStep(img, pos, n, checksum, requests);
    InvInProgramFlash(t);
  }

  /** In ProgramFlash the invariant is the chunk bookkeeping alone. */
  lemma InvInProgramFlash(t: Session)
    requires t.state.ProgramFlash?
    requires t.pos <= |t.file.contents|
    requires t.pos % CHUNK_SIZE == 0 || t.pos == |t.file.contents|
    requires t.checksum == Sum(t.file.contents[..t.pos]) % 0x100
    requires ProgramRequests(t.requests) == ChunkList(t.file.contents[..t.pos], 0)
    ensures Inv(t)
  {
  }

  lemma InvDecide(s: Session, result: seq<word>)
    requires Inv(s)
    requires ReadsResult(s.state) ==> |result| > 0
    ensures Inv(Decide(s, result))
    ensures var d := Decide(s, result);
            && d.file == s.file && d.pos == s.pos && d.requests == s.requests
            && (d.checksum != s.checksum ==> s.state.Idle? && d.checksum == 0)
            && (s.state.Idle? ==> d.checksum == 0 && d.state.EraseFlash?)
  {
    var d := Decide(s, result);
    if s.state.Idle? {
      assert s.file.contents[..0] == [];
    }
  }

  lemma InvIssue(s: Session)
    requires Inv(s)
    ensures Inv(Issue(s))
  {
    match s.state
    case ProgramFlash => IssueProgramKeepsInv(s);
    case EraseFlash => ProgramRequestsSnoc(s.requests, Request(CC.EraseFlash, []));
    case VerifyFlash => ProgramRequestsSnoc(s.requests, Request(CC.GetChecksumFlash, []));
    case ResetDevice => ProgramRequestsSnoc(s.requests, Request(CC.ResetDevice, []));
    case Idle =>
    case Finished =>
  }

  lemma InvExecute(s: Session, result: seq<word>)
    requires Inv(s)
    requires ReadsResult(s.state) ==> |result| > 0
    ensures Inv(Execute(s, result))
  {
    InvDecide(s, result);
    InvIssue(Decide(s, result));
  }

  lemma InvLoad(s: Session, f: Firmware)
    requires Inv(s)
    ensures Inv(Load(s, f))
  {
    if !f.openFails {
      InvExecute(s.(file := f, pos := 0, state := Idle, requests := [], finishes := [], messages := []), []);
    }
  }

  lemma InvClientFinished(s: Session, success: bool, clientError: string, result: seq<word>)
    requires Inv(s)
    requires success && ReadsResult(s.state) ==> |result| > 0
    ensures Inv(ClientFinished(s, success, clientError, result))
  {
    if success {
      InvExecute(s, result);
    }
  }

  /** Once programming is over, the whole image has been sent, in
      ceil(S / 246) chunks that rebuild it, and the checksum is the sum of
      all its bytes modulo 256. */
  lemma ImageSentWhole(s: Session)
    requires Inv(s)
    requires AtEndStates(s.state)
    ensures s.checksum == Sum(s.file.contents) % 0x100
    ensures ProgramRequests(s.requests) == ChunkList(s.file.contents, 0)
    ensures |ProgramRequests(s.requests)| == (|s.file.contents| + CHUNK_SIZE - 1) / CHUNK_SIZE
    ensures Bodies(ProgramRequests(s.requests)) == s.file.contents
  {
    assert s.file.contents[..s.pos] == s.file.contents;
    ChunkCount(s.file.contents, 0);
    ChunksReassemble(s.file.contents, 0);
  }

  /** Verification moves on to Reset iff the device reports the sum of the
      whole image; otherwise it reports the failure, stays in VerifyFlash
      and asks for the checksum again. */
  lemma VerifyOutcome(s: Session, result: seq<word>)
    requires Inv(s)
    requires s.state.VerifyFlash? && |result| > 0
    ensures var t := Execute(s, result);
            && (t.state.ResetDevice? <==> result[0] == Sum(s.file.contents) % 0x100)
            && (t.state.ResetDevice? ==> t.requests == s.requests + [Request(CC.ResetDevice, [])])
            && (!t.state.ResetDevice? ==>
                  && t.state == VerifyFlash
                  && t.errorStr == VERIFY_FAILED
                  && t.finishes == s.finishes + [false]
                  && t.requests == s.requests + [Request(CC.GetChecksumFlash, [])])
  {
    ImageSentWhole(s);
  }

  /** Starting a load: a file that opens clears the error and checksum,
      enters EraseFlash and issues one Erase request; one that does not open
      reports its error and changes nothing else. */
  lemma LoadOutcome(s: Session, f: Firmware)
    ensures var t := Load(s, f);
            && (!f.openFails ==>
                  && t.state == EraseFlash && t.errorStr == "" && t.checksum == 0 && t.pos == 0
                  && t.requests == [Request(CC.EraseFlash, [])]
                  && t.messages == [Erasing]
                  && t.finishes == [])
            && (f.openFails ==>
                  t == s.(errorStr := f.errorText, finishes := s.finishes + [false]))
  {
  }

  /** An acknowledged chunk with image bytes left sends the next chunk: its
      4-byte header is the position before the read, followed by 1..246
      bytes, which are added into the checksum. With the image exhausted it
      moves to VerifyFlash and asks for the checksum. */
  lemma {:induction false} ProgramAcknowledged(s: Session, result: seq<word>)
    requires Inv(s)
    requires s.state.ProgramFlash? && !s.file.readFails
    requires |result| > 0 && result[0] == 0
    ensures var t, img := Execute(s, result), s.file.contents;
            && (s.pos < |img| ==>
                  var n := t.pos - s.pos;
                  && t.state == ProgramFlash
                  && 1 <= n <= CHUNK_SIZE
                  && t.requests == s.requests + [Request(CC.ProgramFlash, Le32(s.pos) + img[s.pos..t.pos])]
                  && |t.requests[|s.requests|].payload| == 4 + n
                  && DecodeLe32(t.requests[|s.requests|].payload[..4]) == s.pos % TWO_TO_32
                  && t.checksum == (s.checksum + Sum(img[s.pos..t.pos])) % 0x100
                  && (n < CHUNK_SIZE ==> t.pos == |img|))
            && (s.pos >= |img| ==>
                  && t.state == VerifyFlash
                  && t.requests == s.requests + [Request(CC.GetChecksumFlash, [])])
  {
    Le32RoundTrip(s.pos);
  }

  /** Erase acknowledged: the loader moves to ProgramFlash and at once sends
      the first chunk, headed by offset 0 and summed into a zero checksum.
      An empty image sends nothing; a read error reports the file's error. */
  lemma EraseAcknowledged(s: Session, result: seq<word>)
    requires Inv(s) && s.state.EraseFlash? && |result| > 0 && result[0] == 0
    ensures var t, img := Execute(s, result), s.file.contents;
            && t.state == ProgramFlash
            && (|img| > 0 && !s.file.readFails ==>
                  && 1 <= t.pos <= CHUNK_SIZE
                  && t.requests == s.requests + [Request(CC.ProgramFlash, Le32(0) + img[..t.pos])]
                  && t.checksum == Sum(img[..t.pos]) % 0x100
                  && t.finishes == s.finishes)
            && (|img| == 0 && !s.file.readFails ==>
                  t.requests == s.requests && t.finishes == s.finishes && t.pos == 0)
            && (s.file.readFails ==>
                  && t.requests == s.requests
                  && t.errorStr == s.file.errorText
                  && t.finishes == s.finishes + [false])
  {
  }

  /** Reset acknowledged: Finished, finished(true), and no further request. */
  lemma ResetAcknowledged(s: Session, result: seq<word>)
    requires s.state.ResetDevice? && |result| > 0 && result[0] == 0
    ensures var t := Execute(s, result);
            t.state == Finished && t.finishes == s.finishes + [true] && t.requests == s.requests
  {
  }

  /** The text of a device-reported failure in each state. */
  function FailureText(st: State): string {
    match st
    case EraseFlash => ERASE_FAILED
    case ProgramFlash => PROGRAM_FAILED
    case VerifyFlash => VERIFY_FAILED
    case ResetDevice => RESET_FAILED
    case _ => ""
  }

  predicate DeviceReportsFailure(s: Session, result: seq<word>)
    requires ReadsResult(s.state) ==> |result| > 0
  {
    match s.state
    case VerifyFlash => s.checksum != result[0]
    case EraseFlash => result[0] != 0
    case ProgramFlash => result[0] != 0
    case ResetDevice => result[0] != 0
    case _ => false
  }

  /** A device-reported failure emits finished(false) with its own text but
      leaves the state as it was, so the second switch issues a request of
      the same kind again (in ProgramFlash: the next chunk, if any, added
      into the checksum like an acknowledged one). */
  lemma DeviceFailureKeepsState(s: Session, result: seq<word>)
    requires ReadsResult(s.state) && |result| > 0
    requires DeviceReportsFailure(s, result)
    requires !(s.state.ProgramFlash? && s.file.readFails)
    ensures var t := Execute(s, result);
            && t.state == s.state
            && t.errorStr == FailureText(s.state)
            && t.finishes == s.finishes + [false]
            && |t.requests| <= |s.requests| + 1
            && t.requests[..|s.requests|] == s.requests
            && (forall r :: r in t.requests[|s.requests|..] ==> r.sub == IssuedFor(s.state))
            && (!s.state.ProgramFlash? ==> |t.requests| == |s.requests| + 1)
    ensures var t, img := Execute(s, result), s.file.contents;
            s.state.ProgramFlash? && s.pos < |img| ==>
              && s.pos < t.pos <= s.pos + CHUNK_SIZE
              && t.requests == s.requests + [Request(CC.ProgramFlash, Le32(s.pos) + img[s.pos..t.pos])]
              && t.checksum == (s.checksum + Sum(img[s.pos..t.pos])) % 0x100
    ensures var t := Execute(s, result);
            s.state.ProgramFlash? && s.pos >= |s.file.contents| ==>
              t.requests == s.requests && t.pos == s.pos && t.checksum == s.checksum
  {
    var t := Execute(s, result);
    assert t.requests[..|s.requests|] == s.requests;
  }

  /** A Program failure followed by a read error reports twice: finished(false)
      for the device's status, then again for the file, whose error text is
      the one left behind; nothing is sent. */
  lemma ProgramFailureThenReadError(s: Session, result: seq<word>)
    requires s.state.ProgramFlash? && |result| > 0 && result[0] != 0
    requires s.file.readFails
    ensures var t := Execute(s, result);
            && t.state == ProgramFlash
            && t.finishes == s.finishes + [false, false]
            && t.errorStr == s.file.errorText
            && t.requests == s.requests
            && t.pos == s.pos && t.checksum == s.checksum
  {
  }

  /** The subfunction each state's request uses. */
  function IssuedFor(st: State): CC.Subfunction {
    match st
    case EraseFlash => CC.EraseFlash
    case ProgramFlash => CC.ProgramFlash
    case VerifyFlash => CC.GetChecksumFlash
    case _ => CC.ResetDevice
  }

  /** In ProgramFlash a read error reports the file's error and sends
      nothing; a read at end of file sends nothing and reports nothing. */
  lemma ReadOutcomes(s: Session)
    requires s.state.ProgramFlash?
    ensures var t := Issue(s);
            && t.state == s.state && t.pos >= s.pos
            && (s.file.readFails ==>
                  && t.errorStr == s.file.errorText
                  && t.finishes == s.finishes + [false]
                  && t.requests == s.requests && t.pos == s.pos && t.checksum == s.checksum)
            && (!s.file.readFails && s.pos >= |s.file.contents| ==>
                  && t.errorStr == s.errorStr && t.finishes == s.finishes
                  && t.requests == s.requests && t.pos == s.pos && t.checksum == s.checksum)
  {
  }

  /** A transport failure copies the client's error and emits
      finished(false) without running the state machine. */
  lemma TransportFailure(s: Session, clientError: string, result: seq<word>)
    ensures var t := ClientFinished(s, false, clientError, result);
            && t.errorStr == clientError && t.finishes == s.finishes + [false]
            && t.state == s.state && t.requests == s.requests
            && t.pos == s.pos && t.checksum == s.checksum
  {
  }

  /** An empty image stalls: once erase succeeds the first read is empty, so
      no Program or GetChecksum request is ever issued and nothing is
      reported. */
  lemma EmptyImageStalls(f: Firmware)
    requires f.contents == [] && !f.openFails && !f.readFails
    ensures var t := ClientFinished(Load(Fresh(), f), true, "", [0]);
            && t.state == ProgramFlash
            && t.requests == [Request(CC.EraseFlash, [])]
            && t.finishes == []
  {
  }

  function Rank(st: State): nat {
    match st
    case Idle => 0
    case EraseFlash => 1
    case ProgramFlash => 2
    case VerifyFlash => 3
    case ResetDevice => 4
    case Finished => 5
  }

  /** States only move forward, one phase at a time. */
  lemma ForwardOnly(s: Session, result: seq<word>)
    requires ReadsResult(s.state) ==> |result| > 0
    ensures var r, r' := Rank(s.state), Rank(Execute(s, result).state);
            r <= r' <= r + 1
  {
  }
}
