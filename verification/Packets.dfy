/**
 TCP data as the receive callback (server.c server_recv) gets it: a chain of pbufs, of which the callback looks into
 the first where it lies and reads the whole from one piece of memory.
 */
module Packets {
  import opened Frame

  // `pbuf` identifies the chain and `data` is all of it; `first` bytes lie in the first pbuf. `after` is the memory
  // behind those, `beyond` the memory behind the copy made of a longer chain.
  datatype Chain = Chain(pbuf: nat, data: seq<bv8>, first: nat, after: seq<bv8>, beyond: seq<bv8>) {
    predicate Valid() {
      first <= |data| && |after| >= VIEW && |beyond| >= VIEW
    }

    predicate Chained() {
      first < |data|
    }
  }

  type Packet = p: Chain | p.Valid() witness Chain(0, [], 0, seq(VIEW, _ => 0), seq(VIEW, _ => 0))

  // strncmp over the length of the header, which holds no zero: it looks at that much memory, however short the data.
  predicate IsUpgrade(packet: Packet) {
    (packet.data[..packet.first] + packet.after)[..HEADER_LEN] == Header()
  }

  // What handle_upgrade_packet can reach.
  function ViewOf(packet: Packet): View {
    (packet.data + if packet.Chained() then packet.beyond else packet.after)[..VIEW]
  }

  // The byte of memory i places behind the start of the first pbuf.
  function MemoryAt(packet: Packet, i: nat): bv8
    requires i < VIEW
  {
    if i < packet.first then packet.data[i] else packet.after[i - packet.first]
  }

  // A packet is an upgrade packet exactly when the eight bytes of memory from its start are these. So a first pbuf
  // of eight bytes or more decides by itself, and a shorter one that is no beginning of the header is none.
  lemma UpgradeExactly(packet: Packet)
    ensures IsUpgrade(packet)
       <==> forall i :: 0 <= i < 8 ==> MemoryAt(packet, i) == [0x5B, 0x55, 0x50, 0x47, 0x52, 0x41, 0x44, 0x45][i]
    ensures IsUpgrade(packet)
       ==> forall i :: 0 <= i < 8 && i < packet.first ==>
             packet.data[i] == [0x5B, 0x55, 0x50, 0x47, 0x52, 0x41, 0x44, 0x45][i]
  {
    var front := (packet.data[..packet.first] + packet.after)[..HEADER_LEN];
    assert forall i :: 0 <= i < 8 ==> front[i] == MemoryAt(packet, i);
    assert front == Header() <==> forall i :: 0 <= i < 8 ==> front[i] == Header()[i];
  }

  // The handler reads the data of the whole chain and then the memory behind it: behind the copy if there was more than
  // one pbuf, behind the only one otherwise.
  lemma SeenAsSent(packet: Packet, i: nat)
    requires i < VIEW
    ensures ViewOf(packet)[i]
         == if i < |packet.data| then packet.data[i]
            else if packet.first < |packet.data| then packet.beyond[i - |packet.data|]
            else packet.after[i - |packet.data|]
  {}
}
