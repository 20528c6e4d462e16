/**
 The upgrade protocol as a host sees it, with no pages, no erasing and no counters: two images, the list of frames
 accepted in the current session, and an armed switch. The firmware is proved to behave as this machine does.
 */
module Protocol {
  import opened NorFlash
  import opened Frame
  import opened Gcm
  import opened Clock
  import opened Upgrade
  import Crc32

  datatype Staging = Idle | Staging(iv: seq<bv8>, frames: seq<seq<bv8>>)
  datatype Switch = Unarmed | Armed(since: nat, polled: nat)

  datatype Model = Model(low: seq<bv8>, high: seq<bv8>, staging: Staging, pending: Switch)
  datatype Reaction = Reaction(model: Model, rc: nat, ack: bv32)

  predicate Frames(frames: seq<seq<bv8>>) {
    forall i :: 0 <= i < |frames| ==> 1 <= |frames[i]| <= MAX_PLAINTEXT_LEN
  }

  // The frames one after the other, each filled up with ones.
  function Image(frames: seq<seq<bv8>>): (s: seq<bv8>)
    requires Frames(frames)
    ensures |s| == MAX_PLAINTEXT_LEN * |frames|
    decreases |frames|
  {
    if frames == [] then [] else Image(frames[..|frames| - 1]) + Padded(frames[|frames| - 1])
  }

  function Total(frames: seq<seq<bv8>>): (n: nat)
    requires Frames(frames)
    ensures |frames| <= n <= MAX_PLAINTEXT_LEN * |frames|
    decreases |frames|
  {
    if frames == [] then 0 else Total(frames[..|frames| - 1]) + |frames[|frames| - 1]|
  }

  // Four frames fill the eight pages that are erased together.
  function Opened(cells: seq<bv8>, n: nat): (s: seq<bv8>)
    requires |cells| == BANK && n <= MAX_SEQ_NUM
    ensures |s| == BANK
  {
    if n % 4 == 0 then Overwrite(cells, n * MAX_PLAINTEXT_LEN, Ones(4 * MAX_PLAINTEXT_LEN)) else cells
  }

  function Place(cells: seq<bv8>, n: nat, text: seq<bv8>): (s: seq<bv8>)
    requires |cells| == BANK && n <= MAX_SEQ_NUM && |text| <= MAX_PLAINTEXT_LEN
    ensures |s| == BANK
  {
    Overwrite(Opened(cells, n), n * MAX_PLAINTEXT_LEN, Padded(text))
  }

  ghost predicate Erased(cells: seq<bv8>, from: nat, to: nat) {
    forall i :: from <= i < to && i < |cells| ==> cells[i] == 0xFF
  }

  function BlockEnd(n: nat): nat {
    (n + 3) / 4 * 4 * MAX_PLAINTEXT_LEN
  }

  ghost predicate WellFormed(m: Model) {
    && |m.low| == |m.high| == BANK
    && match m.staging
       case Idle => true
       case Staging(_, frames) =>
         && |frames| <= MAX_SEQ_NUM + 1 && Frames(frames)
         && m.high[..MAX_PLAINTEXT_LEN * |frames|] == Image(frames)
         && Erased(m.high, MAX_PLAINTEXT_LEN * |frames|, BlockEnd(|frames|))
  }

  function React(cipher: Cipher, m: Model, v: View, gcmOk: bool, time: nat): (r: Reaction)
    requires WellFormed(m)
  {
    match Validate(v)
    case Invalid(ack) => Reaction(m, FAILURE, ack)
    case Valid =>
      if TypeOf(v) == AUTHENTICATED_FRAME then
        if gcmOk && cipher.tag(IvOf(v)) == TagOf(v)
        then Reaction(m.(staging := Staging(IvOf(v), [])), SUCCESS, Swap32(PASS))
        else Reaction(m.(staging := Idle), FAILURE, Swap32(FAIL))
      else
        match m.staging
        case Idle => Reaction(m, FAILURE, Swap32(FAIL))
        case Staging(iv, frames) =>
          if TypeOf(v) == DATA_FRAME then Accept(cipher, m, v, gcmOk)
          else if TypeOf(v) == COMMAND_FRAME then Obey(m, v, time)
          else Reaction(m, FAILURE, Swap32(TYPE_ERR))
  }

  function Accept(cipher: Cipher, m: Model, v: View, gcmOk: bool): (r: Reaction)
    requires WellFormed(m) && m.staging.Staging?
  {
    var frames := m.staging.frames;
    if SeqOf(v) > MAX_SEQ_NUM then Reaction(m, FAILURE, Swap32(SEQ_ERR))
    else if SeqOf(v) != |frames| then Reaction(m.(staging := Idle), FAILURE, Swap32(SEQ_ERR))
    else if LenOf(v) > MAX_PLAINTEXT_LEN || LenOf(v) == 0 then Reaction(m, FAILURE, Swap32(LEN_ERR))
    else if !gcmOk then Reaction(m, FAILURE, Swap32(DECRYPT_ERR))
    else
      var text := Crypt(cipher, m.staging.iv, PayloadOf(v));
      Reaction(m.(staging := m.staging.(frames := frames + [text]), high := Place(m.high, |frames|, text)),
               SUCCESS, DataAck(v))
  }

  function Obey(m: Model, v: View, time: nat): (r: Reaction)
    requires WellFormed(m) && m.staging.Staging?
  {
    var frames := m.staging.frames;
    if CommandOf(v) == GET_VERSION then Reaction(m, SUCCESS, Swap32(APP_VERSION))
    else if CommandOf(v) == GET_CRC then
      Reaction(m, SUCCESS, Swap32(if 0 < Total(frames) < BANK then Crc32.Crc(Image(frames)[..Total(frames)]) else 0))
    else if CommandOf(v) == EXEC then Reaction(m.(pending := Armed(time, time)), SUCCESS, Swap32(PASS))
    else Reaction(m, FAILURE, Swap32(CMD_ERR))
  }

  // The two images change places once the counter has seen more than three seconds since the latest EXEC.
  function Wait(m: Model, time: nat): Model {
    match m.pending
    case Unarmed => m
    case Armed(since, polled) =>
      if Counted(since, time) > SWITCHING_INTERVAL then Model(m.high, m.low, Idle, Unarmed)
      else m.(pending := Armed(since, time))
  }

  function Next(cipher: Cipher, m: Model, e: Event): Model
    requires WellFormed(m)
  {
    match e
    case Packet(v, gcmOk, time) => React(cipher, m, v, gcmOk, time).model
    case Clocked(time) => Wait(m, time)
    case Reset => m.(staging := Idle, pending := Unarmed)
  }

  // While the switch is armed, time goes forward and polls come less than 2^31 ms apart.
  predicate Timely(m: Model, e: Event) {
    m.pending.Armed? ==>
      match e
      case Packet(_, _, time) => m.pending.polled <= time
      case Clocked(time) => m.pending.polled <= time && time - m.pending.polled < 0x8000_0000
      case Reset => true
  }

  /* The staged image. */

  lemma PlaceExtends(cells: seq<bv8>, n: nat, text: seq<bv8>)
    requires |cells| == BANK && n <= MAX_SEQ_NUM && |text| <= MAX_PLAINTEXT_LEN
    ensures Place(cells, n, text)[..(n + 1) * MAX_PLAINTEXT_LEN] == cells[..n * MAX_PLAINTEXT_LEN] + Padded(text)
  {
    hide Padded, Opened;
    var cleared := Opened(cells, n);
    OpenedKeeps(cells, n);
    assert Place(cells, n, text)[..(n + 1) * MAX_PLAINTEXT_LEN] == cleared[..n * MAX_PLAINTEXT_LEN] + Padded(text);
  }

  lemma OpenedKeeps(cells: seq<bv8>, n: nat)
    requires |cells| == BANK && n <= MAX_SEQ_NUM
    ensures Opened(cells, n)[..n * MAX_PLAINTEXT_LEN] == cells[..n * MAX_PLAINTEXT_LEN]
  {}

  lemma BlockEnds(n: nat)
    ensures n % 4 == 0 ==> BlockEnd(n + 1) == (n + 4) * MAX_PLAINTEXT_LEN
    ensures n % 4 != 0 ==> BlockEnd(n + 1) == BlockEnd(n) && BlockEnd(n) >= (n + 1) * MAX_PLAINTEXT_LEN
  {}

  // When frame n is due its place has just been, or is about to be, erased.
  lemma OpenedErased(cells: seq<bv8>, n: nat)
    requires |cells| == BANK && n <= MAX_SEQ_NUM
    requires Erased(cells, n * MAX_PLAINTEXT_LEN, BlockEnd(n))
    ensures Erased(Opened(cells, n), n * MAX_PLAINTEXT_LEN, BlockEnd(n + 1))
    ensures BlockEnd(n + 1) >= (n + 1) * MAX_PLAINTEXT_LEN
  {
    hide BlockEnd;
    BlockEnds(n);
  }

  lemma PlaceErased(cells: seq<bv8>, n: nat, text: seq<bv8>)
    requires |cells| == BANK && n <= MAX_SEQ_NUM && |text| <= MAX_PLAINTEXT_LEN
    requires Erased(cells, n * MAX_PLAINTEXT_LEN, BlockEnd(n))
    ensures Erased(Place(cells, n, text), (n + 1) * MAX_PLAINTEXT_LEN, BlockEnd(n + 1))
  {
    hide Opened, BlockEnd, Padded;
    OpenedErased(cells, n);
  }

  lemma ImageExtends(frames: seq<seq<bv8>>, text: seq<bv8>)
    requires Frames(frames) && 1 <= |text| <= MAX_PLAINTEXT_LEN
    ensures Frames(frames + [text])
    ensures Image(frames + [text]) == Image(frames) + Padded(text)
    ensures Total(frames + [text]) == Total(frames) + |text|
  {
    assert (frames + [text])[..|frames|] == frames;
  }

  lemma AcceptWellFormed(cipher: Cipher, m: Model, v: View, gcmOk: bool)
    requires WellFormed(m) && m.staging.Staging?
    ensures WellFormed(Accept(cipher, m, v, gcmOk).model)
  {
    hide Image, Total, Place, Crypt, SeqOf, LenOf, PayloadOf, Erased, BlockEnd;
    var frames := m.staging.frames;
    if SeqOf(v) == |frames| && |frames| <= MAX_SEQ_NUM && 1 <= LenOf(v) <= MAX_PLAINTEXT_LEN {
      var text := Crypt(cipher, m.staging.iv, PayloadOf(v));
      PlaceExtends(m.high, |frames|, text);
      PlaceErased(m.high, |frames|, text);
      ImageExtends(frames, text);
    }
  }

  lemma NextWellFormed(cipher: Cipher, m: Model, e: Event)
    requires WellFormed(m)
    ensures WellFormed(Next(cipher, m, e))
  {
    hide Validate, TypeOf, CommandOf, Accept;
    if e.Packet? && m.staging.Staging? {
      AcceptWellFormed(cipher, m, e.view, e.gcmOk);
    }
    EmptyImage();
  }

  lemma EmptyImage()
    ensures Image([]) == []
  {}

  /* Runs. */

  function Course(cipher: Cipher, m: Model, events: seq<Event>): (r: Model)
    requires WellFormed(m)
    ensures WellFormed(r)
    decreases |events|
  {
    if events == [] then m
    else
      var before := Course(cipher, m, events[..|events| - 1]);
      NextWellFormed(cipher, before, events[|events| - 1]);
      Next(cipher, before, events[|events| - 1])
  }

  function AnswerTo(cipher: Cipher, m: Model, e: Event): seq<Sent>
    requires WellFormed(m)
  {
    match e
    case Packet(v, gcmOk, time) =>
      var r := React(cipher, m, v, gcmOk, time);
      [Sent(r.rc, r.ack)]
    case _ => []
  }

  function Answers(cipher: Cipher, m: Model, events: seq<Event>): seq<Sent>
    requires WellFormed(m)
    decreases |events|
  {
    if events == [] then []
    else
      Answers(cipher, m, events[..|events| - 1])
      + AnswerTo(cipher, Course(cipher, m, events[..|events| - 1]), events[|events| - 1])
  }

  predicate TimelyRun(cipher: Cipher, m: Model, events: seq<Event>)
    requires WellFormed(m)
    decreases |events|
  {
    events == []
    || (&& TimelyRun(cipher, m, events[..|events| - 1])
        && Timely(Course(cipher, m, events[..|events| - 1]), events[|events| - 1]))
  }
}
