/**
 ProcessPacket, SendChatHandshake and AcceptReverseConnection as methods of one
 end of a chat connection (icq/src/chat.cpp:861-1173), against the function that
 the composition of two ends is proved about.
 */
module ChatConnections {
  import opened Bytes
  import opened ChatStream
  import opened ChatPackets
  import opened ChatHandshake
  import Writers = ChatPacketWriters

  class ChatConnection {
    const pendingRequest: bool
    const otherClients: seq<Client>
    var state: State
    var settings: Settings
    var saidColors: Settings
    var saidFont: Settings
    var heard: Heard
    var clients: seq<Client>
    var raw: seq<seq<Byte>>
    var connections: nat
    var misread: bool

    function View(): Peer
      reads this
    {
      Peer(state, settings, pendingRequest, otherClients, saidColors, saidFont, heard, clients, raw, connections, misread)
    }

    constructor (initial: State, me: Settings, pending: bool, others: seq<Client>)
      ensures View() == FreshPeer(initial, me, pending, others)
    {
      pendingRequest, otherClients, state := pending, others, initial;
      settings, saidColors, saidFont := me, me, me;
      heard := Heard(0, [], Color(0, 0, 0), Color(0xFF, 0xFF, 0xFF), FontPacket(0, 0, 0, 0, [], 0, 0));
      clients, raw, connections, misread := [], [], 0, false;
    }

    method SendFramed(packet: Buffer) returns (sent: seq<Item>)
      ensures sent == [Framed(packet.data)]
    {
      sent := [Framed(packet.data)];
    }

    /** The Color packet goes out and its answer is waited for. */
    method SendColorPacket() returns (sent: seq<Item>)
      modifies this
      ensures (View(), sent) == SendColor(old(View()))
    {
      var packet := Writers.PackColor(settings);
      sent := SendFramed(packet);
      saidColors, state := settings, WaitColorFont;
    }

    method ProcessPacket(i: Item) returns (sent: seq<Item>)
      modifies this
      ensures (View(), sent) == Reads(old(View()), i)
    {
      hide DecodeColor, DecodeColorFont, DecodeFont, Writers.ColorData, Writers.FontData, Writers.ColorFontData;
      sent := [];
      if state == WaitHandshake && i.Shake? {
        if pendingRequest {
          sent := SendColorPacket();
        } else {
          state := WaitColor;
        }
      } else if state == WaitColor && i.Packet? {
        var pin := DecodeColor(i.bytes);
        heard := heard.(name := pin.name, fore := pin.fore, back := pin.back);
        var packet := Writers.PackColorFont(settings, otherClients);
        sent := SendFramed(packet);
        saidColors, saidFont, state := settings, settings, WaitFont;
      } else if state == WaitFont && i.Packet? {
        var pin := DecodeFont(i.bytes);
        settings := settings.(session := pin.session);
        heard := heard.(font := pin);
        state, connections := Connected, connections + 1;
      } else if state == WaitColorFont && i.Packet? {
        var pin := DecodeColorFont(i.bytes);
        heard, clients := Heard(pin.uin, pin.name, pin.fore, pin.back, pin.font), pin.clients;
        var packet := Writers.PackFont(settings);
        sent := SendFramed(packet);
        saidFont, state, connections := settings, Connected, connections + 1;
      } else if state == Connected && i.Raw? {
        raw := raw + [i.bytes];
      } else {
        misread := true;
      }
    }
  }
}
