/**
 The file-transfer engine (icq/src/filetransfer.cpp): what each role of a
 FileTransferManager does with a packet, with a writable socket, with the
 user's confirmation and with the end of the connection.

 Packets are FIFO items; the length in front of each is the socket layer's.
 All positions are below 2^31, as the signed arithmetic of the source needs.
 */
module FileTransfer {
  import opened Bytes

  type File = f: seq<Byte> | |f| < 0x8000_0000

  datatype State =
    | Disconnected
    | Handshake
    | WaitForClientInit
    | WaitForServerInit
    | WaitForStart
    | WaitForFileInfo
    | ReceivingFile
    | SendingFile
    | ConfirmingFile

  datatype Result = Running | DoneBatch | ErrorFile | ErrorClosed | ErrorHandshake

  // Shake: whether the handshake answers a reverse connect request of the peer that reads it.
  datatype Packet =
    | Shake(answersRequest: bool)
    | ClientInit(files: nat, size: nat)
    | ServerInit
    | FileInfo(size: nat)
    | Start(pos: nat, file: nat)
    | SetSpeed(speed: nat)
    | Data(bytes: seq<Byte>)

  const CHUNK := 2048

  // ----- sender -----

  /** batch: the files to send; next: how far myPathNameIter is; readPos: the open file's offset. */
  datatype Sender = Sender(
    batch: seq<File>, next: nat, state: State, result: Result,
    fileSize: nat, filePos: nat, transferred: nat, readPos: nat,
    batchPos: nat, batchTransferred: nat, currentFile: nat)
  {
    function Close(r: Result): Sender {
      this.(state := Disconnected, result := r)
    }

    // Behind the last packet of a file: the next file is announced, or the batch is done.
    function NextFile(): (Sender, seq<Packet>)
      requires next < |batch|
    {
      if next + 1 == |batch| then (this.(next := next + 1).Close(DoneBatch), [])
      else
        var size := |batch[next + 1]|;
        (this.(next := next + 1, fileSize := size, state := WaitForStart), [FileInfo(size)])
    }
  }

  function BatchSize(batch: seq<File>): (n: nat) {
    if batch == [] then 0 else BatchSize(batch[..|batch| - 1]) + |batch[|batch| - 1]|
  }

  /** ProcessPacket in the roles of the sending side. */
  function SenderReads(s: Sender, p: Packet): (r: (Sender, seq<Packet>))
    requires s.next < |s.batch|
  {
    match s.state
    case Handshake =>
      if !p.Shake? then (s, [])
      else if p.answersRequest then
        (s.(state := WaitForServerInit), [ClientInit(|s.batch|, BatchSize(s.batch) % 0x1_0000_0000)])
      else (s.(state := WaitForClientInit), [])
    case WaitForServerInit =>
      if p.SetSpeed? then (s, [])
      else if !p.ServerInit? then (s.Close(ErrorHandshake), [])
      else
        var size := |s.batch[s.next]|;
        (s.(fileSize := size, batchPos := 0, batchTransferred := 0, state := WaitForStart), [FileInfo(size)])
    case WaitForStart =>
      if p.SetSpeed? then (s, [])
      else if !p.Start? then (s.Close(ErrorClosed), [])
      else
        (s.(transferred := 0, currentFile := s.currentFile + 1, filePos := p.pos, readPos := p.pos,
            state := SendingFile), [])
    case _ => (s, [])
  }

  /** SendFilePacket: one chunk, and after the last one the next file's info or the end. */
  function SenderWrites(s: Sender): (r: (Sender, seq<Packet>))
    requires s.state == SendingFile && s.next < |s.batch|
    requires s.filePos <= s.fileSize
  {
    var file := s.batch[s.next];
    var toSend := if s.fileSize - s.filePos > CHUNK then CHUNK else s.fileSize - s.filePos;
    var start := if s.transferred == 0 then s.filePos else 0;
    if s.readPos + toSend > |file| then (s.(batchPos := s.batchPos + start).Close(ErrorFile), [])
    else
      var t := s.(filePos := s.filePos + toSend, readPos := s.readPos + toSend,
        transferred := s.transferred + toSend,
        batchPos := s.batchPos + start + toSend, batchTransferred := s.batchTransferred + toSend);
      var data := Data(file[s.readPos..s.readPos + toSend]);
      if t.filePos < t.fileSize then (t, [data])
      else
        var (u, next) := t.NextFile();
        (u, [data] + next)
  }

  // ----- receiver -----

  /** written: what the open file holds; received: what the closed ones were left with. */
  datatype Receiver = Receiver(
    received: seq<seq<Byte>>, written: seq<Byte>, state: State, result: Result,
    fileSize: nat, filePos: nat, transferred: nat,
    batchFiles: nat, batchSize: nat, batchPos: nat, batchTransferred: nat, currentFile: nat)
  {
    function Close(r: Result): Receiver {
      this.(state := Disconnected, result := r)
    }
  }

  /** ProcessPacket in the roles of the receiving side. */
  function ReceiverReads(r: Receiver, p: Packet): (q: (Receiver, seq<Packet>)) {
    match r.state
    case Handshake =>
      if p.Shake? then (r.(state := WaitForClientInit), []) else (r, [])
    case WaitForClientInit =>
      if p.SetSpeed? then (r, [])
      else if !p.ClientInit? then (r.Close(ErrorHandshake), [])
      else
        (r.(batchFiles := p.files, batchSize := p.size, batchPos := 0, batchTransferred := 0,
            state := WaitForFileInfo), [SetSpeed(100), ServerInit])
    case WaitForFileInfo =>
      if p.SetSpeed? || p == Data([]) then (r, [])
      else if !p.FileInfo? then (r.Close(ErrorHandshake), [])
      else (r.(fileSize := p.size, transferred := 0, currentFile := r.currentFile + 1, state := ConfirmingFile), [])
    case ReceivingFile => (ReceiverWrites(r, p), [])
    case _ => (r, [])
  }

  function ReceiverWrites(r: Receiver, p: Packet): (q: Receiver) {
    var s := if r.transferred == 0 then r.(batchPos := r.batchPos + r.filePos) else r;
    if !p.Data? then s
    else
      var n := |p.bytes|;
      var t := s.(written := s.written + p.bytes, filePos := s.filePos + n, transferred := s.transferred + n,
        batchPos := s.batchPos + n, batchTransferred := s.batchTransferred + n);
      if t.filePos < t.fileSize then t
      else t.(received := t.received + [t.written], written := [], state := WaitForFileInfo)
  }

  datatype Option<T> = None | Some(value: T)

  /** Where the receiver starts: the size of the file it finds, even of one it
      then does not append to. */
  function Offset(found: Option<File>): (n: nat) {
    if found.Some? then |found.value| else 0
  }

  /** What the file it opens holds already: a found file is appended to only when
      it is shorter than the incoming one; otherwise a new file is opened. */
  function Base(found: Option<File>, size: nat): (s: seq<Byte>) {
    if found.Some? && |found.value| < size then found.value else []
  }

  /** startReceivingFile, when stat finds found. */
  function ReceiverConfirms(r: Receiver, found: Option<File>): (q: (Receiver, seq<Packet>)) {
    if r.state != ConfirmingFile then (r, [])
    else
      (r.(written := Base(found, r.fileSize), filePos := Offset(found), state := ReceivingFile),
       [Start(Offset(found), r.currentFile)])
  }

  /** The other end has closed and everything it sent has been read. */
  function ReceiverEnds(r: Receiver): (q: Receiver) {
    r.Close(if r.state == WaitForFileInfo then DoneBatch else ErrorClosed)
  }

  // ----- the manager objects -----

  class FileSender {
    const pathNames: seq<File>
    var pathNameIter: nat
    var state: State
    var result: Result
    var fileSize: nat
    var filePos: nat
    var bytesTransfered: nat
    var fileDesc: nat
    var batchPos: nat
    var batchBytesTransfered: nat
    var currentFile: nat

    function View(): Sender
      reads this
    {
      Sender(pathNames, pathNameIter, state, result, fileSize, filePos, bytesTransfered, fileDesc,
        batchPos, batchBytesTransfered, currentFile)
    }

    constructor (batch: seq<File>, initial: State)
      ensures View() == FreshSender(batch, initial)
    {
      pathNames, pathNameIter, state, result := batch, 0, initial, Running;
      fileSize, filePos, bytesTransfered, fileDesc := 0, 0, 0, 0;
      batchPos, batchBytesTransfered, currentFile := 0, 0, 0;
    }

    method CloseConnection(r: Result)
      modifies this
      ensures View() == old(View()).Close(r)
    {
      state, result := Disconnected, r;
    }

    method ProcessPacket(p: Packet) returns (reply: seq<Packet>)
      requires pathNameIter < |pathNames|
      modifies this
      ensures (View(), reply) == SenderReads(old(View()), p)
    {
      reply := [];
      match state {
        case Handshake =>
          if p.Shake? {
            if p.answersRequest {
              reply := [ClientInit(|pathNames|, BatchSize(pathNames) % 0x1_0000_0000)];
              state := WaitForServerInit;
            } else {
              state := WaitForClientInit;
            }
          }
        case WaitForServerInit =>
          if p.SetSpeed? {
            return;
          }
          if !p.ServerInit? {
            CloseConnection(ErrorHandshake);
            return;
          }
          fileSize := |pathNames[pathNameIter]|;
          reply := [FileInfo(fileSize)];
          batchBytesTransfered, batchPos := 0, 0;
          state := WaitForStart;
        case WaitForStart =>
          if p.SetSpeed? {
            return;
          }
          if !p.Start? {
            CloseConnection(ErrorClosed);
            return;
          }
          bytesTransfered, currentFile := 0, currentFile + 1;
          filePos, fileDesc := p.pos, p.pos;
          state := SendingFile;
        case _ =>
      }
    }

    method SendFilePacket() returns (sent: seq<Packet>)
      requires state == SendingFile && pathNameIter < |pathNames| && filePos <= fileSize
      modifies this
      ensures (View(), sent) == SenderWrites(old(View()))
    {
      var file := pathNames[pathNameIter];
      var bytesToSend := fileSize - filePos;
      if bytesToSend > CHUNK {
        bytesToSend := CHUNK;
      }
      if bytesTransfered == 0 {
        batchPos := batchPos + filePos;
      }
      if fileDesc + bytesToSend > |file| {
        CloseConnection(ErrorFile);
        return [];
      }
      sent := [Data(file[fileDesc..fileDesc + bytesToSend])];
      fileDesc, filePos := fileDesc + bytesToSend, filePos + bytesToSend;
      bytesTransfered := bytesTransfered + bytesToSend;
      batchPos, batchBytesTransfered := batchPos + bytesToSend, batchBytesTransfered + bytesToSend;
      if filePos >= fileSize {
        var next := NextFile();
        sent := sent + next;
      }
    }

    method NextFile() returns (sent: seq<Packet>)
      requires pathNameIter < |pathNames|
      modifies this
      ensures (View(), sent) == old(View()).NextFile()
    {
      pathNameIter := pathNameIter + 1;
      if pathNameIter == |pathNames| {
        CloseConnection(DoneBatch);
        return [];
      }
      fileSize := |pathNames[pathNameIter]|;
      sent := [FileInfo(fileSize)];
      state := WaitForStart;
    }
  }

  class FileReceiver {
    var directory: seq<seq<Byte>>
    var openFile: seq<Byte>
    var state: State
    var result: Result
    var fileSize: nat
    var filePos: nat
    var bytesTransfered: nat
    var batchFiles: nat
    var batchSize: nat
    var batchPos: nat
    var batchBytesTransfered: nat
    var currentFile: nat

    function View(): Receiver
      reads this
    {
      Receiver(directory, openFile, state, result, fileSize, filePos, bytesTransfered,
        batchFiles, batchSize, batchPos, batchBytesTransfered, currentFile)
    }

    constructor (initial: State)
      ensures View() == FreshReceiver(initial)
    {
      directory, openFile, state, result := [], [], initial, Running;
      fileSize, filePos, bytesTransfered := 0, 0, 0;
      batchFiles, batchSize, batchPos, batchBytesTransfered, currentFile := 0, 0, 0, 0, 0;
    }

    method CloseConnection(r: Result)
      modifies this
      ensures View() == old(View()).Close(r)
    {
      state, result := Disconnected, r;
    }

    method ProcessPacket(p: Packet) returns (reply: seq<Packet>)
      modifies this
      ensures (View(), reply) == ReceiverReads(old(View()), p)
    {
      reply := [];
      match state {
        case Handshake =>
          if p.Shake? {
            state := WaitForClientInit;
          }
        case WaitForClientInit =>
          if p.SetSpeed? {
            return;
          }
          if !p.ClientInit? {
            CloseConnection(ErrorHandshake);
            return;
          }
          batchFiles, batchSize := p.files, p.size;
          batchBytesTransfered, batchPos := 0, 0;
          reply := [SetSpeed(100), ServerInit];
          state := WaitForFileInfo;
        case WaitForFileInfo =>
          if p.SetSpeed? || p == Data([]) {
            return;
          }
          if !p.FileInfo? {
            CloseConnection(ErrorHandshake);
            return;
          }
          fileSize, bytesTransfered, currentFile := p.size, 0, currentFile + 1;
          state := ConfirmingFile;
        case ReceivingFile =>
          WriteData(p);
        case _ =>
      }
    }

    method WriteData(p: Packet)
      modifies this
      ensures View() == ReceiverWrites(old(View()), p)
    {
      if bytesTransfered == 0 {
        batchPos := batchPos + filePos;
      }
      if !p.Data? {
        return;
      }
      openFile := openFile + p.bytes;
      var bytesWritten := |p.bytes|;
      filePos, bytesTransfered := filePos + bytesWritten, bytesTransfered + bytesWritten;
      batchPos, batchBytesTransfered := batchPos + bytesWritten, batchBytesTransfered + bytesWritten;
      if filePos < fileSize {
        return;
      }
      directory, openFile := directory + [openFile], [];
      state := WaitForFileInfo;
    }

    method StartReceivingFile(found: Option<File>) returns (ok: bool, reply: seq<Packet>)
      modifies this
      ensures ok == (old(state) == ConfirmingFile)
      ensures (View(), reply) == ReceiverConfirms(old(View()), found)
    {
      if state != ConfirmingFile {
        return false, [];
      }
      match found {
        case Some(local) =>
          openFile := if |local| >= fileSize then [] else local;
          filePos := |local|;
        case None =>
          openFile, filePos := [], 0;
      }
      state := ReceivingFile;
      return true, [Start(filePos, currentFile)];
    }

    method ConnectionLost()
      modifies this
      ensures View() == ReceiverEnds(old(View()))
    {
      if state == WaitForFileInfo {
        CloseConnection(DoneBatch);
      } else {
        CloseConnection(ErrorClosed);
      }
    }
  }

  function FreshSender(batch: seq<File>, initial: State): Sender {
    Sender(batch, 0, initial, Running, 0, 0, 0, 0, 0, 0, 0)
  }

  function FreshReceiver(initial: State): Receiver {
    Receiver([], [], initial, Running, 0, 0, 0, 0, 0, 0, 0, 0)
  }
}
