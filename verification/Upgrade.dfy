/**
 The upgrade session (upgrade.c) as a state machine: what handling a packet, polling the switching timer and a
 reset do to the session, the timer and the flash.
 */
module Upgrade {
  import opened NorFlash
  import opened Frame
  import opened Gcm
  import opened Clock
  import Crc32
  import FlashService

  const SUCCESS: nat := 0
  const FAILURE: nat := 1
  const PAGES_TO_ERASE: nat := 8
  const SWITCHING_INTERVAL: nat := 3000
  const APP_VERSION: bv32 := 0x0001_0000

  // is_authenticated, pre_pkt_seq, file_len and crypto_iv
  datatype Session = Session(authenticated: bool, number: int, fileLen: nat, iv: seq<bv8>)

  // switching_timer; `armed` says that switching_timer_poll has been set.
  datatype Timer = Timer(armed: bool, count: nat, last: nat)

  datatype Node = Node(session: Session, timer: Timer, dev: Device)

  datatype Answer = Answer(node: Node, rc: nat, ack: bv32)

  function InitialIv(): seq<bv8> {
    [0xca, 0xfe, 0xba, 0xbe, 0xfa, 0xce, 0xdb, 0xad, 0xde, 0xca, 0xf8, 0x88, 0x33, 0xd4, 0x82, 0xfe]
  }

  function Boot(dev: Device): Node {
    Node(Session(false, -1, 0, InitialIv()), Timer(false, 0, 0), dev)
  }

  function Started(session: Session): Session {
    session.(authenticated := true, number := -1, fileLen := 0)
  }

  function Ended(session: Session): Session {
    session.(authenticated := false, number := -1, fileLen := 0)
  }

  /* Data frames. */

  // The plaintext buffer: set to ones, then decrypted into.
  function Padded(text: seq<bv8>): (s: seq<bv8>)
    requires |text| <= MAX_PLAINTEXT_LEN
    ensures |s| == MAX_PLAINTEXT_LEN
  {
    text + Ones(MAX_PLAINTEXT_LEN - |text|)
  }

  // One round of the loop in data_write: erase eight pages when the first of them is reached, then write one.
  function PageWrite(dev: Device, address: nat, bytes: seq<bv8>): (r: Reply)
    requires dev.Valid() && HIGH_BASE <= address && |bytes| == PAGE && address + PAGE <= HIGH_BASE + BANK
    ensures r.dev.Valid()
  {
    var page := (address - HIGH_BASE) / PAGE;
    var e := if page % PAGES_TO_ERASE == 0
             then FlashService.ErasePage(dev, address, FlashService.ERASE_PAGES_8)
             else Reply(dev, SUCCESS);
    if e.rc != SUCCESS then e else FlashService.Write(e.dev, address, bytes, false)
  }

  // data_write with `left` bytes still to write from the front of what remains of the buffer.
  function DataWrite(dev: Device, address: nat, buffer: seq<bv8>, left: int): (r: Reply)
    requires dev.Valid() && HIGH_BASE <= address && address + |buffer| <= HIGH_BASE + BANK
    requires |buffer| % PAGE == 0 && left <= |buffer|
    ensures r.dev.Valid()
    decreases left
  {
    if left <= 0 then Reply(dev, SUCCESS)
    else
      var w := PageWrite(dev, address, buffer[..PAGE]);
      if w.rc != SUCCESS then w else DataWrite(w.dev, address + PAGE, buffer[PAGE..], left - PAGE)
  }

  predicate Intact(dev: Device, address: nat, text: seq<bv8>)
    requires dev.Valid() && InFlash(address) && Offset(address) + |text| <= BANK
  {
    Read(dev, address, 0, |text|) == text
  }

  // A data frame whose sequence number and length have been accepted and whose payload has been decrypted.
  function StoreFrame(node: Node, number: nat, text: seq<bv8>, ack: bv32): (a: Answer)
    requires node.dev.Valid() && number <= MAX_SEQ_NUM && |text| <= MAX_PLAINTEXT_LEN
    ensures a.node.dev.Valid() && a.node.timer == node.timer
  {
    var address := number * MAX_PLAINTEXT_LEN + HIGH_BASE;
    var session := node.session.(number := number);
    var w := DataWrite(node.dev, address, Padded(text), |text|);
    if w.rc != SUCCESS || !Intact(w.dev, address, text) then
      Answer(node.(session := Ended(session), dev := w.dev), FAILURE, Swap32(FLASH_WR_ERR))
    else
      Answer(node.(session := session.(fileLen := (session.fileLen + |text|) % WRAP), dev := w.dev), SUCCESS, ack)
  }

  function HandleData(cipher: Cipher, node: Node, v: View, gcmOk: bool): (a: Answer)
    requires node.dev.Valid()
    ensures a.node.dev.Valid() && a.node.timer == node.timer
  {
    var session := node.session;
    if SeqOf(v) > MAX_SEQ_NUM then Answer(node, FAILURE, Swap32(SEQ_ERR))
    else if session.number + 1 != SeqOf(v) then Answer(node.(session := Ended(session)), FAILURE, Swap32(SEQ_ERR))
    else if LenOf(v) > MAX_PLAINTEXT_LEN || LenOf(v) == 0 then Answer(node, FAILURE, Swap32(LEN_ERR))
    else if !gcmOk then Answer(node, FAILURE, Swap32(DECRYPT_ERR))
    else StoreFrame(node, SeqOf(v), Crypt(cipher, session.iv, PayloadOf(v)), DataAck(v))
  }

  /* The other frames. */

  // The initialisation vector is taken over before the tag is compared.
  function HandleAuthentication(cipher: Cipher, node: Node, v: View, gcmOk: bool): Answer {
    var session := node.session.(iv := IvOf(v));
    if gcmOk && cipher.tag(IvOf(v)) == TagOf(v)
    then Answer(node.(session := Started(session)), SUCCESS, Swap32(PASS))
    else Answer(node.(session := Ended(session)), FAILURE, Swap32(FAIL))
  }

  function ImageCrc(node: Node): bv32
    requires node.dev.Valid()
  {
    if 0 < node.session.fileLen < BANK then Crc32.Crc(Read(node.dev, HIGH_BASE, 0, node.session.fileLen)) else 0
  }

  function HandleCommand(node: Node, v: View, now: nat): Answer
    requires node.dev.Valid()
  {
    var command := CommandOf(v);
    if command == GET_VERSION then Answer(node, SUCCESS, Swap32(APP_VERSION))
    else if command == GET_CRC then Answer(node, SUCCESS, Swap32(ImageCrc(node)))
    else if command == EXEC then Answer(node.(timer := Timer(true, 0, now)), SUCCESS, Swap32(PASS))
    else Answer(node, FAILURE, Swap32(CMD_ERR))
  }

  // handle_upgrade_packet. `gcmOk` says whether the cipher library reports success, `now` is the counter.
  function Handle(cipher: Cipher, node: Node, v: View, gcmOk: bool, now: nat): (a: Answer)
    requires node.dev.Valid()
    ensures a.node.dev.Valid()
    ensures now < WRAP && node.timer.last < WRAP ==> a.node.timer.last < WRAP
  {
    hide Validate, HandleData;
    match Validate(v)
    case Invalid(ack) => Answer(node, FAILURE, ack)
    case Valid =>
      if TypeOf(v) == AUTHENTICATED_FRAME then HandleAuthentication(cipher, node, v, gcmOk)
      else if !node.session.authenticated then Answer(node, FAILURE, Swap32(FAIL))
      else if TypeOf(v) == DATA_FRAME then HandleData(cipher, node, v, gcmOk)
      else if TypeOf(v) == COMMAND_FRAME then HandleCommand(node, v, now)
      else Answer(node, FAILURE, Swap32(TYPE_ERR))
  }

  // handle_upgrade_packet when upgrade_init has found no cipher and so has built no table, which the caller of
  // upgrade_init does not look at. No session can have begun. With four bytes or more an unbuilt table gives the CRC
  // of every frame as all ones, and the vector is still taken over.
  function HandleUnready(node: Node, v: View): Answer
    requires !node.session.authenticated
  {
    hide Check;
    match Check(v, 0xFFFF_FFFF)
    case Invalid(ack) => Answer(node, FAILURE, ack)
    case Valid =>
      if TypeOf(v) == AUTHENTICATED_FRAME
      then Answer(node.(session := Ended(node.session.(iv := IvOf(v)))), FAILURE, Swap32(FAIL))
      else Answer(node, FAILURE, Swap32(FAIL))
  }

  // Such a device refuses everything and leaves the flash alone; and it answers as one whose cipher fails on every
  // packet, except to a data frame whose CRC field is right but not all ones, or all ones but not right.
  lemma UnreadyRefuses(cipher: Cipher, node: Node, v: View, now: nat)
    requires node.dev.Valid() && !node.session.authenticated
    ensures
      var a := HandleUnready(node, v);
      var end := PAYLOAD_POS + LenOf(v);
      var sent := Net32(v, end);
      && a.rc == FAILURE && !a.node.session.authenticated && a.node.dev == node.dev && a.node.timer == node.timer
      && (a == Handle(cipher, node, v, false, now)
          <==> !(TypeOf(v) == DATA_FRAME && v[end + CRC_LEN] == TAIL
                 && (sent == 0xFFFF_FFFF) != (sent == Crc32.Crc(Covered(v)))))
  {
    hide TypeOf, LenOf, Net32, Swap32, Crc32.Crc, Covered, IvOf, TagOf, HandleData, HandleCommand;
    TypesDiffer();
    StatusesDiffer();
  }

  lemma StatusesDiffer()
    ensures Swap32(FAIL) != Swap32(CRC_ERR)
  {}

  /* The bank switch. */

  function CodeSwitching(dev: Device): Device {
    var q := FlashService.IsGpnvmSet(dev, FlashService.GPNVM2);
    if q.rc == FlashService.RC_YES then FlashService.ClearGpnvm(q.dev, FlashService.GPNVM2).dev
    else FlashService.SetGpnvm(q.dev, FlashService.GPNVM2).dev
  }

  predicate Fires(timer: Timer, now: nat)
    requires timer.last < WRAP && now < WRAP
  {
    var d := Elapsed(timer.last, now);
    timer.armed && d != 0 && (timer.count + d) % WRAP > SWITCHING_INTERVAL
  }

  // switching_timer_poll, if it has been set. The switch ends in a reset.
  function Poll(node: Node, now: nat): (n: Node)
    requires node.timer.last < WRAP && now < WRAP
    ensures n.timer.last < WRAP
    ensures node.dev.Valid() ==> n.dev.Valid()
  {
    if !node.timer.armed then node
    else if Fires(node.timer, now) then Boot(CodeSwitching(node.dev))
    else
      var d := Elapsed(node.timer.last, now);
      if d == 0 then node else node.(timer := node.timer.(count := (node.timer.count + d) % WRAP, last := now))
  }

  /* Runs. */

  // Times are milliseconds since the last reset.
  datatype Event = Packet(view: View, gcmOk: bool, time: nat) | Clocked(time: nat) | Reset

  predicate Ready(node: Node) {
    node.dev.Valid() && node.timer.last < WRAP
  }

  function Step(cipher: Cipher, node: Node, e: Event): (n: Node)
    requires Ready(node)
    ensures Ready(n)
  {
    hide Handle, Poll;
    match e
    case Packet(v, gcmOk, time) => Handle(cipher, node, v, gcmOk, Tick(time)).node
    case Clocked(time) => Poll(node, Tick(time))
    case Reset => Boot(node.dev)
  }

  function Run(cipher: Cipher, node: Node, events: seq<Event>): (n: Node)
    requires Ready(node)
    ensures Ready(n)
    decreases |events|
  {
    if events == [] then node
    else Step(cipher, Run(cipher, node, events[..|events| - 1]), events[|events| - 1])
  }

  // What a packet is answered with.
  datatype Sent = Sent(rc: nat, ack: bv32)

  function ReplyTo(cipher: Cipher, node: Node, e: Event): seq<Sent>
    requires Ready(node)
  {
    match e
    case Packet(v, gcmOk, time) =>
      var a := Handle(cipher, node, v, gcmOk, Tick(time));
      [Sent(a.rc, a.ack)]
    case _ => []
  }

  function Replies(cipher: Cipher, node: Node, events: seq<Event>): seq<Sent>
    requires Ready(node)
    decreases |events|
  {
    if events == [] then []
    else
      Replies(cipher, node, events[..|events| - 1])
      + ReplyTo(cipher, Run(cipher, node, events[..|events| - 1]), events[|events| - 1])
  }

  /* The switch itself. */

  // GPNVM2 flips exactly when it could be read if it was set, and the command then issued succeeded. No cell changes.
  lemma SwitchFlips(dev: Device)
    ensures
      (CodeSwitching(dev).Swapped() != dev.Swapped())
      <==> ((dev.Swapped() ==> !dev.Misread()) && dev.Next().Done?)
    ensures CodeSwitching(dev).bank0 == dev.bank0 && CodeSwitching(dev).bank1 == dev.bank1
    ensures dev.Works() ==> CodeSwitching(dev).Works()
  {}
}
