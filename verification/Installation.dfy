/**
 A whole update: authenticate, send the file in frames of 1024 bytes, ask for the CRC, switch. What the device
 answers on the way, and what it runs afterwards.
 */
module Installation {
  import opened NorFlash
  import opened Frame
  import opened Gcm
  import opened Clock
  import opened Upgrade
  import opened Protocol
  import opened HostUpdate
  import UpgradeRefinement
  import Crc32

  /* The staged bytes as the host's file. */

  function Concat(frames: seq<seq<bv8>>): (s: seq<bv8>)
    decreases |frames|
  {
    if frames == [] then [] else Concat(frames[..|frames| - 1]) + frames[|frames| - 1]
  }

  predicate Full(frames: seq<seq<bv8>>) {
    forall i :: 0 <= i < |frames| ==> |frames[i]| == MAX_PLAINTEXT_LEN
  }

  // Only the last frame may be short.
  predicate FullButLast(frames: seq<seq<bv8>>) {
    forall i :: 0 <= i < |frames| - 1 ==> |frames[i]| == MAX_PLAINTEXT_LEN
  }

  lemma {:induction false} FullFrames(frames: seq<seq<bv8>>)
    requires Frames(frames) && Full(frames)
    ensures Image(frames) == Concat(frames) && Total(frames) == |Concat(frames)| == MAX_PLAINTEXT_LEN * |frames|
    decreases |frames|
  {
    if frames != [] {
      FullFrames(frames[..|frames| - 1]);
      assert Padded(frames[|frames| - 1]) == frames[|frames| - 1];
    }
  }

  lemma AllFull(frames: seq<seq<bv8>>)
    requires Frames(frames) && FullButLast(frames) && frames != []
    ensures Frames(frames[..|frames| - 1]) && Full(frames[..|frames| - 1])
  {}

  // With full frames but the last, the staged image is the concatenation of the payloads and then ones, and file_len
  // is its length.
  lemma ImageOfFullFrames(frames: seq<seq<bv8>>)
    requires Frames(frames) && FullButLast(frames) && frames != []
    ensures Total(frames) == |Concat(frames)|
    ensures Image(frames) == Concat(frames) + Ones(MAX_PLAINTEXT_LEN * |frames| - Total(frames))
  {
    hide Ones, FullButLast, Full;
    var last := |frames| - 1;
    AllFull(frames);
    FullFrames(frames[..last]);
    assert Concat(frames) == Concat(frames[..last]) + frames[last];
    assert Padded(frames[last]) == frames[last] + Ones(MAX_PLAINTEXT_LEN - |frames[last]|);
  }

  /* What file_len describes, for every list of frames. */

  lemma {:induction false} FullExactly(frames: seq<seq<bv8>>)
    requires Frames(frames)
    ensures Total(frames) == MAX_PLAINTEXT_LEN * |frames| <==> Full(frames)
    decreases |frames|
  {
    if frames != [] {
      var front := frames[..|frames| - 1];
      FullExactly(front);
      assert forall i :: 0 <= i < |front| ==> front[i] == frames[i];
    }
  }

  // file_len ends where the last frame ends exactly when every frame before the last was full.
  lemma FileLenExact(frames: seq<seq<bv8>>)
    requires Frames(frames) && frames != []
    ensures
      var last := |frames| - 1;
      Total(frames) == MAX_PLAINTEXT_LEN * last + |frames[last]| <==> FullButLast(frames)
  {
    var front := frames[..|frames| - 1];
    FullExactly(front);
    assert forall i :: 0 <= i < |front| ==> front[i] == frames[i];
  }

  predicate Blank(text: seq<bv8>) {
    forall i :: 0 <= i < |text| ==> text[i] == 0xFF
  }

  // Whatever comes after a short frame is nothing but ones.
  predicate BlankAfterShort(frames: seq<seq<bv8>>) {
    forall i, j :: 0 <= i < j < |frames| && |frames[i]| < MAX_PLAINTEXT_LEN ==> Blank(frames[j])
  }

  lemma LastFrame(frames: seq<seq<bv8>>)
    requires Frames(frames) && frames != []
    ensures
      var front := frames[..|frames| - 1];
      var last := frames[|frames| - 1];
      && Frames(front) && 1 <= |last| <= MAX_PLAINTEXT_LEN
      && (BlankAfterShort(frames) <==> BlankAfterShort(front) && (Full(front) || Blank(last)))
      && Image(frames) == Image(front) + Padded(last) && Concat(frames) == Concat(front) + last
      && Total(frames) == Total(front) + |last|
  {
    hide Blank;
    var front := frames[..|frames| - 1];
    var last := frames[|frames| - 1];
    assert forall i :: 0 <= i < |front| ==> front[i] == frames[i];
    if BlankAfterShort(frames) && !Full(front) {
      var i :| 0 <= i < |front| && |front[i]| != MAX_PLAINTEXT_LEN;
      assert |frames[i]| < MAX_PLAINTEXT_LEN;
      assert Blank(frames[|front|]);
    }
  }

  lemma {:induction false} ConcatLength(frames: seq<seq<bv8>>)
    requires Frames(frames)
    ensures |Concat(frames)| == Total(frames)
    decreases |frames|
  {
    if frames != [] {
      ConcatLength(frames[..|frames| - 1]);
    }
  }

  lemma {:induction false} TailBlank(frames: seq<seq<bv8>>)
    requires Frames(frames) && BlankAfterShort(frames)
    ensures Blank(Image(frames)[Total(frames)..])
    decreases |frames|
  {
    hide BlankAfterShort, Full, Frames, Image, Concat, Total;
    if frames == [] {
      EmptyImage();
    } else {
      var front := frames[..|frames| - 1];
      LastFrame(frames);
      TailBlank(front);
      if Full(front) {
        FullFrames(front);
      }
      Appended(Image(front), Total(front), frames[|frames| - 1]);
    }
  }

  lemma Appended(image: seq<bv8>, at: nat, text: seq<bv8>)
    requires at <= |image| && |text| <= MAX_PLAINTEXT_LEN && Blank(image[at..])
    requires at == |image| || Blank(text)
    ensures Blank((image + Padded(text))[at + |text|..])
    ensures at == |image| || (image + Padded(text))[at..at + |text|] == text
  {
    var all := image + Padded(text);
    forall i | at <= i < |all| && (i < |image| || at < |image|)
      ensures all[i] == 0xFF
    {
      if i < |image| {
        assert all[i] == image[at..][i - at];
      }
    }
  }

  // A text that reads the same behind a gap of ones.
  predicate Shifted(text: seq<bv8>, gap: nat) {
    forall j :: 0 <= j < |text| ==> SameBehind(text, gap, j)
  }

  predicate SameBehind(text: seq<bv8>, gap: nat, j: nat)
    requires j < |text|
  {
    text[j] == if j < gap then 0xFF else text[j - gap]
  }

  lemma {:induction false} ShiftBlank(text: seq<bv8>, gap: nat, j: nat)
    requires gap > 0 && Shifted(text, gap) && j < |text|
    ensures text[j] == 0xFF
    decreases j
  {
    assert SameBehind(text, gap, j);
    if j >= gap {
      ShiftBlank(text, gap, j - gap);
    }
  }

  // The last frame, read where file_len looks for it, when the image reaches further than that.
  lemma Misplaced(image: seq<bv8>, at: nat, text: seq<bv8>)
    requires at < |image| && |text| <= MAX_PLAINTEXT_LEN && Blank(image[at..])
    requires (image + Padded(text))[at..at + |text|] == text
    ensures Blank(text)
  {
    var gap := |image| - at;
    var all := image + Padded(text);
    forall j | 0 <= j < |text|
      ensures SameBehind(text, gap, j)
    {
      assert text[j] == all[at..at + |text|][j] == all[at + j];
      if j < gap {
        assert all[at + j] == image[at..][j];
      }
    }
    forall j | 0 <= j < |text|
      ensures text[j] == 0xFF
    {
      ShiftBlank(text, gap, j);
    }
  }

  // The first file_len bytes of the staged image are what was sent exactly when everything sent after the first short
  // frame was 0xFF (so in particular when only the last frame was short).
  lemma {:induction false} StagedMatches(frames: seq<seq<bv8>>)
    requires Frames(frames)
    ensures Image(frames)[..Total(frames)] == Concat(frames) <==> BlankAfterShort(frames)
    decreases |frames|
  {
    hide BlankAfterShort, Full, Frames, Image, Concat, Total, Padded, Blank;
    if frames == [] {
      NothingSent();
    } else {
      var front := frames[..|frames| - 1];
      var last := frames[|frames| - 1];
      LastFrame(frames);
      StagedMatches(front);
      ConcatLength(front);
      SplitMatch(Image(front), Total(front), Concat(front), last);
      if BlankAfterShort(front) {
        TailBlank(front);
        FullExactly(front);
        if Total(front) < |Image(front)| {
          if Image(frames)[Total(front)..Total(front) + |last|] == last {
            Misplaced(Image(front), Total(front), last);
          } else if Blank(last) {
            Appended(Image(front), Total(front), last);
          }
        }
      }
    }
  }

  lemma NothingSent()
    ensures Image([]) == Concat([]) && BlankAfterShort([])
  {}

  lemma SplitMatch(image: seq<bv8>, at: nat, sent: seq<bv8>, text: seq<bv8>)
    requires at == |sent| <= |image| && |text| <= MAX_PLAINTEXT_LEN
    ensures
      var all := image + Padded(text);
      && (all[..at + |text|] == sent + text <==> image[..at] == sent && all[at..at + |text|] == text)
      && (at == |image| ==> all[at..at + |text|] == text)
  {
    var all := image + Padded(text);
    assert all[..at + |text|] == all[..at] + all[at..at + |text|];
    assert all[..at] == image[..at];
  }

  // The reply to GET_CRC over such frames, while they do not fill the bank.
  lemma CrcOfMatching(m: Model, v: View, time: nat)
    requires WellFormed(m) && m.staging.Staging? && CommandOf(v) == GET_CRC
    requires BlankAfterShort(m.staging.frames) && 0 < Total(m.staging.frames) < BANK
    ensures Obey(m, v, time).ack == Swap32(Crc32.Crc(Concat(m.staging.frames)))
  {
    hide Crc32.Crc, Swap32, CommandOf, Image, BlankAfterShort;
    StagedMatches(m.staging.frames);
    CommandsDiffer();
  }

  lemma CrcOfFullFrames(m: Model, v: View, time: nat)
    requires WellFormed(m) && m.staging.Staging? && CommandOf(v) == GET_CRC
    requires FullButLast(m.staging.frames) && 0 < Total(m.staging.frames) < BANK
    ensures Obey(m, v, time).ack == Swap32(Crc32.Crc(Concat(m.staging.frames)))
  {
    hide Obey, Blank;
    CrcOfMatching(m, v, time);
  }

  lemma CommandsDiffer()
    ensures GET_CRC != GET_VERSION && EXEC != GET_VERSION && EXEC != GET_CRC
  {}

  lemma TwoShort()
    ensures
      var frames := [[1], [2]];
      Frames(frames) && Total(frames) == 2 && Concat(frames) == [1, 2] && Image(frames)[..2] == [1, 0xFF]
  {
    var frames: seq<seq<bv8>> := [[1], [2]];
    assert frames[..1] == [[1]];
    assert Image([[1]]) == Padded([1]) && Total([[1]]) == 1 && Concat([[1]]) == [1] by {
      assert [[1 as bv8]][..0] == [];
    }
  }

  lemma SwapInjective(a: bv32, b: bv32)
    ensures Swap32(a) == Swap32(b) ==> a == b
  {}

  // After frames of one byte each, 1 and 2, GET_CRC does not answer the CRC of what was sent.
  lemma ShortFrameMisses(m: Model, v: View, time: nat)
    requires WellFormed(m) && m.staging.Staging? && m.staging.frames == [[1], [2]] && CommandOf(v) == GET_CRC
    ensures Obey(m, v, time).ack != Swap32(Crc32.Crc(Concat(m.staging.frames)))
  {
    hide Crc32.Crc, Swap32, CommandOf, Image, Total, Concat;
    TwoShort();
    CommandsDiffer();
    Crc32.BurstDetected([], [1, 0xFF], [1, 2], []);
    assert [] + [1, 0xFF] + [] == [1 as bv8, 0xFF] && [] + [1, 2] + [] == [1 as bv8, 2];
    SwapInjective(Crc32.Crc([1, 0xFF]), Crc32.Crc([1, 2]));
  }

  /* The file in frames. */

  function Count(file: seq<bv8>): nat {
    (|file| + MAX_PLAINTEXT_LEN - 1) / MAX_PLAINTEXT_LEN
  }

  function Chunk(file: seq<bv8>, k: nat): (c: seq<bv8>)
    requires k < Count(file)
    ensures 1 <= |c| <= MAX_PLAINTEXT_LEN
  {
    var end := (k + 1) * MAX_PLAINTEXT_LEN;
    file[k * MAX_PLAINTEXT_LEN..if end <= |file| then end else |file|]
  }

  function Chunks(file: seq<bv8>, n: nat): (cs: seq<seq<bv8>>)
    requires n <= Count(file)
    ensures |cs| == n && forall k :: 0 <= k < n ==> cs[k] == Chunk(file, k)
    ensures Frames(cs)
  {
    seq(n, k requires 0 <= k < n => Chunk(file, k))
  }

  lemma {:induction false} ChunksConcat(file: seq<bv8>, n: nat)
    requires n <= Count(file)
    ensures Concat(Chunks(file, n)) == file[..if n * MAX_PLAINTEXT_LEN <= |file| then n * MAX_PLAINTEXT_LEN else |file|]
    decreases n
  {
    if n > 0 {
      ChunksConcat(file, n - 1);
      assert Chunks(file, n)[..n - 1] == Chunks(file, n - 1);
      assert Concat(Chunks(file, n)) == Concat(Chunks(file, n - 1)) + Chunk(file, n - 1);
    }
  }

  // What the bank holds after the update: the file, then ones up to a whole number of frames.
  lemma FileImage(file: seq<bv8>)
    requires file != []
    ensures
      var n := Count(file);
      && Image(Chunks(file, n)) == file + Ones(MAX_PLAINTEXT_LEN * n - |file|)
      && Total(Chunks(file, n)) == |file|
      && FullButLast(Chunks(file, n)) && Concat(Chunks(file, n)) == file
  {
    var n := Count(file);
    ChunksConcat(file, n);
    assert file[..|file|] == file;
    ImageOfFullFrames(Chunks(file, n));
  }

  /* The update. */

  predicate Sends(e: Event, frame: seq<bv8>) {
    e.Packet? && e.gcmOk && Carries(e.view, frame)
  }

  // Authentication, then the encrypted chunks in order.
  predicate Upload(cipher: Cipher, iv: seq<bv8>, file: seq<bv8>, n: nat, events: seq<Event>)
    requires |iv| == IV_LEN && n <= Count(file) <= MAX_SEQ_NUM + 1
  {
    && |events| == n + 1
    && Sends(events[0], AuthenticationFrame(iv, cipher.tag(iv)))
    && forall k :: 0 <= k < n ==> Sends(events[k + 1], DataFrame(k, Crypt(cipher, iv, Chunk(file, k))))
  }

  lemma AuthenticationStages(cipher: Cipher, m: Model, iv: seq<bv8>, e: Event)
    requires WellFormed(m) && |iv| == IV_LEN && |cipher.tag(iv)| == TAG_LEN
    requires Sends(e, AuthenticationFrame(iv, cipher.tag(iv)))
    ensures Next(cipher, m, e) == m.(staging := Staging(iv, []))
    ensures AnswerTo(cipher, m, e) == [Sent(SUCCESS, Swap32(PASS))]
  {
    hide AuthenticationFrame, Carries, Validate, TypeOf, IvOf, TagOf, Swap32;
    AuthenticationReads(e.view, iv, cipher.tag(iv));
  }

  lemma ChunkStages(cipher: Cipher, m: Model, file: seq<bv8>, k: nat, e: Event)
    requires WellFormed(m) && m.staging.Staging? && k < Count(file) <= MAX_SEQ_NUM + 1
    requires m.staging.frames == Chunks(file, k)
    requires Sends(e, DataFrame(k, Crypt(cipher, m.staging.iv, Chunk(file, k))))
    ensures
      var next := Next(cipher, m, e);
      && next.staging == Staging(m.staging.iv, Chunks(file, k + 1)) && next.pending == m.pending && next.low == m.low
    ensures AnswerTo(cipher, m, e) == [Sent(SUCCESS, DataAck(e.view))]
  {
    hide DataFrame, Carries, Validate, TypeOf, SeqOf, LenOf, PayloadOf, Swap32, DataAck, Chunk, Crypt, Place, Obey;
    var payload := Crypt(cipher, m.staging.iv, Chunk(file, k));
    DataReads(e.view, k, payload);
    CryptTwice(cipher, m.staging.iv, Chunk(file, k));
    TypesDiffer();
    assert Chunks(file, k) + [Chunk(file, k)] == Chunks(file, k + 1);
  }

  // Events that may come anywhere among those of the upload: polls, packets that are not valid, and every command but
  // EXEC.
  predicate Bystander(e: Event) {
    match e
    case Clocked(_) => true
    case Packet(v, _, _) => Validate(v) != Valid || (TypeOf(v) == COMMAND_FRAME && CommandOf(v) != EXEC)
    case Reset => false
  }

  function Essential(events: seq<Event>): seq<Event>
    decreases |events|
  {
    if events == [] then []
    else Essential(events[..|events| - 1]) + if Bystander(events[|events| - 1]) then [] else [events[|events| - 1]]
  }

  lemma BystanderIdle(cipher: Cipher, m: Model, e: Event)
    requires WellFormed(m) && m.pending == Unarmed && Bystander(e)
    ensures Next(cipher, m, e) == m && Timely(m, e)
  {
    hide Validate, TypeOf, CommandOf, Swap32, Image, Total, Erased, Accept;
    TypesDiffer();
  }

  lemma {:induction false} OnlyBystanders(cipher: Cipher, m: Model, events: seq<Event>)
    requires WellFormed(m) && m.pending == Unarmed && Essential(events) == []
    ensures Course(cipher, m, events) == m && TimelyRun(cipher, m, events)
    ensures forall i :: 0 <= i < |events| ==> Bystander(events[i])
    decreases |events|
  {
    hide Bystander, Next, Timely;
    if events != [] {
      OnlyBystanders(cipher, m, events[..|events| - 1]);
      BystanderIdle(cipher, m, events[|events| - 1]);
    }
  }

  // The i-th event is answered with success.
  ghost predicate Succeeds(cipher: Cipher, m: Model, events: seq<Event>, i: nat)
    requires WellFormed(m) && i < |events|
  {
    forall a :: a in AnswerTo(cipher, Course(cipher, m, events[..i]), events[i]) ==> a.rc == SUCCESS
  }

  ghost predicate AllSucceed(cipher: Cipher, m: Model, events: seq<Event>)
    requires WellFormed(m)
  {
    forall i :: 0 <= i < |events| && !Bystander(events[i]) ==> Succeeds(cipher, m, events, i)
  }

  lemma OneMoreSucceeds(cipher: Cipher, m: Model, events: seq<Event>, e: Event)
    requires WellFormed(m) && AllSucceed(cipher, m, events)
    requires !Bystander(e) ==> forall a :: a in AnswerTo(cipher, Course(cipher, m, events), e) ==> a.rc == SUCCESS
    ensures AllSucceed(cipher, m, events + [e])
  {
    hide Bystander, AnswerTo, Course;
    var more := events + [e];
    assert more[..|events|] == events;
    forall i | 0 <= i < |more| && !Bystander(more[i])
      ensures Succeeds(cipher, m, more, i)
    {
      if i < |events| {
        assert more[..i] == events[..i];
        assert Succeeds(cipher, m, events, i);
      }
    }
  }

  lemma {:induction false} UploadStages(
    cipher: Cipher, m: Model, iv: seq<bv8>, file: seq<bv8>, n: nat, events: seq<Event>)
    requires WellFormed(m) && m.pending == Unarmed && |iv| == IV_LEN && |cipher.tag(iv)| == TAG_LEN
    requires n <= Count(file) <= MAX_SEQ_NUM + 1 && Upload(cipher, iv, file, n, Essential(events))
    ensures
      var end := Course(cipher, m, events);
      end.staging == Staging(iv, Chunks(file, n)) && end.pending == Unarmed && end.low == m.low
    ensures TimelyRun(cipher, m, events)
    ensures AllSucceed(cipher, m, events)
    decreases |events|
  {
    hide AuthenticationFrame, DataFrame, Carries, Crypt, Next, AnswerTo, DataAck, Swap32, Chunk, Bystander, Timely;
    hide AllSucceed;
    var before := events[..|events| - 1];
    var e := events[|events| - 1];
    assert events == before + [e];
    if Bystander(e) {
      UploadStages(cipher, m, iv, file, n, before);
      BystanderIdle(cipher, Course(cipher, m, before), e);
    } else {
      assert Essential(before) == Essential(events)[..n];
      assert e == Essential(events)[n];
      if n == 0 {
        OnlyBystanders(cipher, m, before);
        NoneToSucceed(cipher, m, before);
        AuthenticationStages(cipher, m, iv, e);
        assert Chunks(file, 0) == [];
      } else {
        UploadStages(cipher, m, iv, file, n - 1, before);
        ChunkStages(cipher, Course(cipher, m, before), file, n - 1, e);
      }
      UnarmedTimely(Course(cipher, m, before), e);
    }
    OneMoreSucceeds(cipher, m, before, e);
  }

  lemma NoneToSucceed(cipher: Cipher, m: Model, events: seq<Event>)
    requires WellFormed(m) && forall i :: 0 <= i < |events| ==> Bystander(events[i])
    ensures AllSucceed(cipher, m, events)
  {
    hide Bystander;
  }

  lemma UnarmedTimely(m: Model, e: Event)
    requires m.pending == Unarmed
    ensures Timely(m, e)
  {}

  /* From the host to the device. */

  lemma StagedCrc(cipher: Cipher, m: Model, file: seq<bv8>, e: Event)
    requires WellFormed(m) && 1 <= |file| <= BANK
    requires m.staging.Staging? && m.staging.frames == Chunks(file, Count(file))
    requires e.Packet? && Carries(e.view, CommandFrame(GET_CRC))
    ensures AnswerTo(cipher, m, e) == [Sent(SUCCESS, Swap32(if |file| < BANK then Crc32.Crc(file) else 0))]
  {
    hide CommandFrame, Carries, Validate, TypeOf, CommandOf, Swap32, Chunks, Crc32.Crc, Image, Total, Accept;
    CommandReads(e.view, GET_CRC);
    FileImage(file);
    CommandsDiffer();
    if |file| < BANK {
      CrcOfFullFrames(m, e.view, e.time);
    }
  }

  // After the upload, whatever bystanders came in between, the answer to GET_CRC is the CRC of the file, unless the
  // file fills the bank: then it is 0.
  lemma UploadAnswersCrc(
    cipher: Cipher, node: Node, m: Model, iv: seq<bv8>, file: seq<bv8>, upload: seq<Event>, e: Event)
    requires UpgradeRefinement.Related(node, m) && m.pending == Unarmed
    requires |iv| == IV_LEN && |cipher.tag(iv)| == TAG_LEN
    requires 1 <= |file| <= BANK && Upload(cipher, iv, file, Count(file), Essential(upload))
    requires e.Packet? && Carries(e.view, CommandFrame(GET_CRC))
    ensures ReplyTo(cipher, Run(cipher, node, upload), e)
         == [Sent(SUCCESS, Swap32(if |file| < BANK then Crc32.Crc(file) else 0))]
  {
    hide AuthenticationFrame, DataFrame, CommandFrame, Carries, Crypt, Swap32, Crc32.Crc, Upload, AnswerTo, ReplyTo;
    UploadStages(cipher, m, iv, file, Count(file), upload);
    UpgradeRefinement.RunRefines(cipher, node, m, upload);
    UpgradeRefinement.StepRefines(cipher, Run(cipher, node, upload), Course(cipher, m, upload), e);
    StagedCrc(cipher, Course(cipher, m, upload), file, e);
  }

  lemma ExecArms(cipher: Cipher, m: Model, e: Event)
    requires WellFormed(m) && m.staging.Staging? && e.Packet? && Carries(e.view, CommandFrame(EXEC))
    ensures Next(cipher, m, e) == m.(pending := Armed(e.time, e.time))
    ensures AnswerTo(cipher, m, e) == [Sent(SUCCESS, Swap32(PASS))]
  {
    hide CommandFrame, Carries, Validate, TypeOf, CommandOf, Swap32, Accept;
    CommandReads(e.view, EXEC);
    CommandsDiffer();
  }

  // Polls after an EXEC, none of them late enough to fire.
  function LastOf(since: nat, waits: seq<Event>): nat {
    if waits != [] && waits[|waits| - 1].Clocked? then waits[|waits| - 1].time else since
  }

  predicate Waiting(since: nat, waits: seq<Event>)
    decreases |waits|
  {
    waits == []
    || (var before := waits[..|waits| - 1];
        var e := waits[|waits| - 1];
        && e.Clocked? && Waiting(since, before)
        && Follows(LastOf(since, before), e.time) && Counted(since, e.time) <= SWITCHING_INTERVAL)
  }

  predicate Follows(last: nat, time: nat) {
    last <= time && time - last < 0x8000_0000
  }

  lemma {:induction false} WaitsHold(cipher: Cipher, m: Model, armed: seq<Event>, since: nat, waits: seq<Event>)
    requires WellFormed(m) && TimelyRun(cipher, m, armed)
    requires Course(cipher, m, armed).pending == Armed(since, since) && Waiting(since, waits)
    ensures TimelyRun(cipher, m, armed + waits)
    ensures Course(cipher, m, armed + waits) == Course(cipher, m, armed).(pending := Armed(since, LastOf(since, waits)))
    decreases |waits|
  {
    hide Counted, WellFormed;
    if waits == [] {
      assert armed + waits == armed;
    } else {
      var before := waits[..|waits| - 1];
      WaitsHold(cipher, m, armed, since, before);
      assert (armed + waits)[..|armed + waits| - 1] == armed + before;
    }
  }

  // The same update on the protocol machine.
  lemma UpdateCourse(cipher: Cipher, m: Model, iv: seq<bv8>, file: seq<bv8>, upload: seq<Event>, exec: Event,
                     waits: seq<Event>)
    requires WellFormed(m) && m.pending == Unarmed && |iv| == IV_LEN && |cipher.tag(iv)| == TAG_LEN
    requires 1 <= |file| <= BANK && Upload(cipher, iv, file, Count(file), Essential(upload))
    requires exec.Packet? && Carries(exec.view, CommandFrame(EXEC)) && Waiting(exec.time, waits)
    ensures
      var events := upload + [exec] + waits;
      var end := Course(cipher, m, events);
      && TimelyRun(cipher, m, events)
      && end.pending == Armed(exec.time, LastOf(exec.time, waits)) && end.low == m.low
      && end.high[..MAX_PLAINTEXT_LEN * Count(file)] == file + Ones(MAX_PLAINTEXT_LEN * Count(file) - |file|)
    ensures AllSucceed(cipher, m, upload + [exec])
    ensures TimelyRun(cipher, m, upload + [exec])
  {
    hide CommandFrame, Carries, Chunk, Image, Upload, Next, Swap32, Counted, Erased, Total, AllSucceed, AnswerTo;
    hide Essential;
    UploadStages(cipher, m, iv, file, Count(file), upload);
    var staged := Course(cipher, m, upload);
    var armed := upload + [exec];
    assert armed[..|upload|] == upload;
    ExecArms(cipher, staged, exec);
    OneMoreSucceeds(cipher, m, upload, exec);
    UnarmedTimely(staged, exec);
    WaitsHold(cipher, m, armed, exec.time, waits);
    FileImage(file);
  }

  lemma Fired(cipher: Cipher, node: Node, m: Model, before: seq<Event>, time: nat)
    requires UpgradeRefinement.Related(node, m) && TimelyRun(cipher, m, before)
    requires Course(cipher, m, before).pending.Armed?
    requires Follows(Course(cipher, m, before).pending.polled, time)
    requires Counted(Course(cipher, m, before).pending.since, time) > SWITCHING_INTERVAL
    ensures
      var end := Course(cipher, m, before);
      var after := Run(cipher, node, before + [Clocked(time)]);
      after == Boot(after.dev) && after.dev.Cells(false) == end.high && after.dev.Cells(true) == end.low
  {
    hide Counted, Fires, CodeSwitching, UpgradeRefinement.SameSession;
    UpgradeRefinement.RunRefines(cipher, node, m, before);
    UpgradeRefinement.FiresExactly(Run(cipher, node, before).timer, Course(cipher, m, before), time);
    UpgradeRefinement.PollRefines(Run(cipher, node, before), Course(cipher, m, before), time);
    assert (before + [Clocked(time)])[..|before|] == before;
  }

  lemma {:induction false} TimelyPrefix(cipher: Cipher, m: Model, events: seq<Event>, i: nat)
    requires WellFormed(m) && TimelyRun(cipher, m, events) && i < |events|
    ensures TimelyRun(cipher, m, events[..i]) && Timely(Course(cipher, m, events[..i]), events[i])
    decreases |events|
  {
    hide Timely, Next;
    var before := events[..|events| - 1];
    if i < |before| {
      TimelyPrefix(cipher, m, before, i);
      assert before[..i] == events[..i];
    }
  }

  // What the protocol machine answers with success, so does the firmware.
  lemma SuccessCarries(cipher: Cipher, node: Node, m: Model, events: seq<Event>, i: nat)
    requires UpgradeRefinement.Related(node, m) && TimelyRun(cipher, m, events) && i < |events|
    requires Succeeds(cipher, m, events, i)
    ensures Accepts(cipher, node, events, i)
  {
    hide ReplyTo, AnswerTo, UpgradeRefinement.SameSession;
    TimelyPrefix(cipher, m, events, i);
    UpgradeRefinement.RunRefines(cipher, node, m, events[..i]);
    UpgradeRefinement.StepRefines(cipher, Run(cipher, node, events[..i]), Course(cipher, m, events[..i]), events[i]);
  }

  ghost predicate Accepts(cipher: Cipher, node: Node, events: seq<Event>, i: nat)
    requires Ready(node) && i < |events|
  {
    forall a :: a in ReplyTo(cipher, Run(cipher, node, events[..i]), events[i]) ==> a.rc == SUCCESS
  }

  // The whole update. From any state in which no switch is pending, and whichever bank is running: the authentication,
  // the file in its frames, the order to switch, with polls and bystanders anywhere between, then polls until the
  // counter has seen three seconds. The device has then reset and runs the file. The image mapped low is the file, then
  // ones up to a whole number of frames; the image that was running is the one mapped high. Every packet of the update
  // was answered with success.
  lemma Installs(cipher: Cipher, node: Node, m: Model, iv: seq<bv8>, file: seq<bv8>, upload: seq<Event>, exec: Event,
                 waits: seq<Event>, time: nat)
    requires UpgradeRefinement.Related(node, m) && m.pending == Unarmed
    requires |iv| == IV_LEN && |cipher.tag(iv)| == TAG_LEN
    requires 1 <= |file| <= BANK && Upload(cipher, iv, file, Count(file), Essential(upload))
    requires exec.Packet? && Carries(exec.view, CommandFrame(EXEC))
    requires Waiting(exec.time, waits) && Follows(LastOf(exec.time, waits), time)
    requires Counted(exec.time, time) > SWITCHING_INTERVAL
    ensures
      var after := Run(cipher, node, upload + [exec] + waits + [Clocked(time)]);
      && after == Boot(after.dev)
      && after.dev.Cells(false)[..MAX_PLAINTEXT_LEN * Count(file)]
           == file + Ones(MAX_PLAINTEXT_LEN * Count(file) - |file|)
      && after.dev.Cells(true) == node.dev.Cells(false)
    ensures forall i :: 0 <= i <= |upload| && !Bystander((upload + [exec])[i]) ==>
      Accepts(cipher, node, upload + [exec], i)
  {
    hide CommandFrame, Carries, Chunk, Image, Upload, Erased, Counted, Step, Next, Essential, Waiting;
    hide Accepts, Succeeds;
    UpdateCourse(cipher, m, iv, file, upload, exec, waits);
    Fired(cipher, node, m, upload + [exec] + waits, time);
    forall i | 0 <= i <= |upload| && !Bystander((upload + [exec])[i])
      ensures Accepts(cipher, node, upload + [exec], i)
    {
      SuccessCarries(cipher, node, m, upload + [exec], i);
    }
  }

  // The same from a reset, with nothing to be known about the device but that it is whole.
  lemma InstallsFromReset(cipher: Cipher, dev: Device, iv: seq<bv8>, file: seq<bv8>, upload: seq<Event>, exec: Event,
                          waits: seq<Event>, time: nat)
    requires dev.Valid() && dev.Works()
    requires |iv| == IV_LEN && |cipher.tag(iv)| == TAG_LEN
    requires 1 <= |file| <= BANK && Upload(cipher, iv, file, Count(file), Essential(upload))
    requires exec.Packet? && Carries(exec.view, CommandFrame(EXEC))
    requires Waiting(exec.time, waits) && Follows(LastOf(exec.time, waits), time)
    requires Counted(exec.time, time) > SWITCHING_INTERVAL
    ensures
      var after := Run(cipher, Boot(dev), upload + [exec] + waits + [Clocked(time)]);
      && after == Boot(after.dev)
      && after.dev.Cells(false)[..MAX_PLAINTEXT_LEN * Count(file)]
           == file + Ones(MAX_PLAINTEXT_LEN * Count(file) - |file|)
      && after.dev.Cells(true) == dev.Cells(false)
  {
    hide Upload, Essential, Waiting, Follows, Counted, Carries, Run, UpgradeRefinement.Related;
    UpgradeRefinement.BootRelated(dev);
    Installs(cipher, Boot(dev), UpgradeRefinement.MachineOf(dev), iv, file, upload, exec, waits, time);
  }
}
