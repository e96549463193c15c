/**
 * The storage node (chunk server): one UDP endpoint that keeps chunk
 * payloads by chunk id and answers two text commands, STORE and RETRIEVE.
 *
 * The socket is left out: incoming datagrams are parameters, and the
 * datagrams the node writes are appended to an outbox field. The node's
 * storage directory of `<chunkId>.bin` files is a map from chunk id to bytes;
 * whether a file write succeeds is a parameter.
 */
module StorageNode {
  import opened Common

  const BaseChunkPort: nat := 5000

  /** The newline byte that ends a datagram's header. */
  const Newline: byte := 10

  /** `listenPort = BASE_CHUNK_PORT + serverId`, stored in a quint16, so
      the sum is taken modulo 2^16. */
  function ListenPort(serverId: int): (p: Port)
    ensures (BaseChunkPort + serverId - p) % 0x1_0000 == 0
    ensures 0 <= serverId < 0x1_0000 - BaseChunkPort ==> p == BaseChunkPort + serverId
  {
    (BaseChunkPort + serverId) % 0x1_0000
  }

  /** Servers with ids below 60536 (the launcher starts ids 0 to 14) listen on
      pairwise different ports; id 60536 wraps round to port 0. */
  lemma {:induction false} ListenPortsDistinct(a: int, b: int)
    requires 0 <= a < 0x1_0000 - BaseChunkPort && 0 <= b < 0x1_0000 - BaseChunkPort
    ensures ListenPort(a) == ListenPort(b) <==> a == b
    ensures ListenPort(0x1_0000 - BaseChunkPort) == 0
  {
  }

  /** `QString("./CHUNK-%1").arg(serverId)` */
  function StorageDir(serverId: int): string
  {
    "./CHUNK-" + IntToString(serverId)
  }

  /** Distinct servers use distinct directory names. */
  lemma {:induction false} StorageDirInjective(a: int, b: int)
    ensures StorageDir(a) == StorageDir(b) ==> a == b
  {
    if StorageDir(a) == StorageDir(b) {
      var n := |"./CHUNK-"|;
      assert IntToString(a) == StorageDir(a)[n..];
      assert IntToString(b) == StorageDir(b)[n..];
      IntToStringInjective(a, b);
    }
  }

  // ---------------------------------------------------------------------------
  // Datagrams

  datatype Endpoint = Endpoint(address: string, port: Port)

  /** A datagram and the peer it came from or goes to. */
  datatype Datagram = Datagram(peer: Endpoint, bytes: seq<byte>)

  /** `QByteArray::left(n)`: the first n bytes, all of them when n is at
      least the size, none when n is negative. */
  function Left(bytes: seq<byte>, n: int): (r: seq<byte>)
    ensures |r| == Min(Max(n, 0), |bytes|)
    ensures r == bytes[..|r|]
  {
    if n < 0 then [] else if n >= |bytes| then bytes else bytes[..n]
  }

  /** The words of a header: its bytes read as text, trimmed, and split on
      single spaces with empty words skipped. */
  function HeaderWords(header: seq<byte>): seq<string>
  {
    SplitSkipEmpty(Trim(CharsOf(header)), ' ')
  }

  /** The source reads `parts[0]` unguarded: a header with no words (say a
      datagram that starts with a newline) is undefined behaviour. */
  predicate HeaderDefined(dg: seq<byte>)
  {
    match IndexOf(dg, Newline)
    case None => true
    case Some(nl) => |HeaderWords(dg[..nl])| >= 1
  }

  /** What `onReadyRead` makes of one datagram: a command to carry out, or
      one of the three reasons it drops the datagram with only a warning. */
  datatype Command =
    | Store(chunkId: string, data: seq<byte>)
    | Retrieve(chunkId: string)
    | NoNewline
    | PayloadTooShort(chunkId: string)
    | UnknownCommand

  function ParseDatagram(dg: seq<byte>): (c: Command)
    requires HeaderDefined(dg)
    ensures c.NoNewline? <==> Newline !in dg
  {
    match IndexOf(dg, Newline)
    case None => NoNewline
    case Some(nl) => ParseHeader(HeaderWords(dg[..nl]), dg[nl + 1..])
  }

  /** The command a header's words and the payload after it make. */
  function ParseHeader(parts: seq<string>, payload: seq<byte>): (c: Command)
    requires |parts| >= 1
    ensures !c.NoNewline?
  {
    if parts[0] == "STORE" && |parts| == 3 then
      var len := ToInt(parts[2]);
      if |payload| < len then PayloadTooShort(parts[1])
      else Store(parts[1], Left(payload, len))
    else if parts[0] == "RETRIEVE" && |parts| == 2 then Retrieve(parts[1])
    else UnknownCommand
  }

  /** STORE needs exactly three words and at least `len` payload bytes, and
      then stores exactly the first `len` of them (none for a negative or
      unreadable `len`); RETRIEVE needs exactly two words; every other header
      is dropped. */
  lemma {:induction false} ParseHeaderCases(parts: seq<string>, payload: seq<byte>)
    requires |parts| >= 1
    ensures var c := ParseHeader(parts, payload);
      && !c.NoNewline?
      && (c.Store? <==> parts[0] == "STORE" && |parts| == 3 && ToInt(parts[2]) <= |payload|)
      && (c.Store? ==> c.chunkId == parts[1] && c.data == payload[..Max(ToInt(parts[2]), 0)])
      && (c.PayloadTooShort? <==> parts[0] == "STORE" && |parts| == 3 && |payload| < ToInt(parts[2]))
      && (c.Retrieve? <==> parts[0] == "RETRIEVE" && |parts| == 2)
      && (c.Retrieve? ==> c.chunkId == parts[1])
  {
  }

  // ---------------------------------------------------------------------------
  // Payload coding and replies

  /** `decodeData`: a placeholder that returns its input and never reports
      corruption. */
  function DecodeData(data: seq<byte>): (r: (seq<byte>, bool))
    ensures r.0 == data && !r.1
  {
    (data, false)
  }

  /** `encodeData`: a placeholder that returns its input. */
  function EncodeData(data: seq<byte>): (r: seq<byte>)
    ensures r == data
  {
    data
  }

  function FlagText(b: bool): string
  {
    if b then "1" else "0"
  }

  /** A header line: the words with single spaces between them, then a
      newline (what `QString("A %1 %2\n").arg(..).arg(..)` builds when no
      argument itself holds a `%` marker). */
  function Line(words: seq<string>): string
  {
    Join(words, ' ') + "\n"
  }

  /** The acknowledgement of a STORE: it carries the node's own address, not
      a successor's. */
  function AckLine(chunkId: string, localIp: string, port: Port, corrupted: bool): string
  {
    Line(["ACK", chunkId, localIp, NatToString(port), FlagText(corrupted)])
  }

  /** The header of a RETRIEVE's reply. */
  function DataHeader(chunkId: string, corrupted: bool, size: nat): string
  {
    Line(["DATA", chunkId, FlagText(corrupted), NatToString(size)])
  }

  /** The headers a sender writes for a STORE of `len` bytes and for a
      RETRIEVE. */
  function StoreHeader(chunkId: string, len: nat): string
  {
    Line(["STORE", chunkId, NatToString(len)])
  }

  function RetrieveHeader(chunkId: string): string
  {
    Line(["RETRIEVE", chunkId])
  }

  /** A field as it travels on the wire: non-empty, single-byte characters,
      no whitespace. */
  predicate Word(s: string)
  {
    && s != [] && IsByteText(s)
    && forall i :: 0 <= i < |s| ==> !IsSpace(s[i])
  }

  /** Decimal numerals are words. */
  lemma {:induction false} NumeralIsWord(n: nat)
    ensures Word(NatToString(n))
  {
    var s := NatToString(n);
    assert forall i :: 0 <= i < |s| ==> IsDigit(s[i]);
  }

  /** The first newline of `dg` is at `nl`; before it stand exactly `words`
      and after it exactly `payload`. */
  predicate ReadsBack(dg: seq<byte>, nl: nat, words: seq<string>, payload: seq<byte>)
  {
    && nl < |dg| && IndexOf(dg, Newline) == Some(nl)
    && HeaderWords(dg[..nl]) == words && dg[nl + 1..] == payload
  }

  /** A datagram cut at its first newline: the words before it and the
      bytes after it, or nothing when it holds no newline. */
  function SplitAtNewline(dg: seq<byte>): (r: Option<(seq<string>, seq<byte>)>)
    ensures r.None? <==> Newline !in dg
  {
    match IndexOf(dg, Newline)
    case None => None
    case Some(nl) => Some((HeaderWords(dg[..nl]), dg[nl + 1..]))
  }

  /** A header line sent as bytes, with any payload behind it, splits at its
      first newline into exactly its words and exactly that payload. */
  lemma {:induction false} LineReadsBack(words: seq<string>, line: string, payload: seq<byte>, dg: seq<byte>)
    requires |words| >= 1 && forall i :: 0 <= i < |words| ==> Word(words[i])
    requires line == Line(words) && dg == BytesOf(line) + payload
    ensures |line| >= 1 && ReadsBack(dg, |line| - 1, words, payload)
    ensures SplitAtNewline(dg) == Some((words, payload))
  {
    var text := Join(words, ' ');
    var b := BytesOf(text);
    BytesOfConcat(text, "\n");
    assert dg == b + [Newline] + payload;
    JoinKeeps(words, ' ', c => c as int < 256 && c != '\n');
    CharsOfBytesOf(text);
    assert Newline !in b by {
      forall i | 0 <= i < |b| ensures b[i] != Newline {
        assert text[i] != '\n';
      }
    }
    IndexOfAfter(b, Newline, payload);
    assert dg[..|text|] == b;
    JoinEnds(words, ' ');
    TrimUnchanged(text);
    assert forall i :: 0 <= i < |words| ==> words[i] != [] && ' ' !in words[i];
    SplitSkipEmptyOfJoin(words, ' ');
    assert dg[|text| + 1..] == payload;
  }

  /** A STORE of `data` (with any bytes after it) is read as a store of
      exactly `data` under `chunkId`. */
  lemma {:induction false} ParseStore(chunkId: string, data: seq<byte>, trailing: seq<byte>)
    requires Word(chunkId) && |data| <= Int32Max
    ensures HeaderDefined(BytesOf(StoreHeader(chunkId, |data|)) + data + trailing)
    ensures ParseDatagram(BytesOf(StoreHeader(chunkId, |data|)) + data + trailing) == Store(chunkId, data)
  {
    var words := ["STORE", chunkId, NatToString(|data|)];
    NumeralIsWord(|data|);
    var payload := data + trailing;
    assert BytesOf(StoreHeader(chunkId, |data|)) + data + trailing == BytesOf(Line(words)) + payload;
    LineReadsBack(words, Line(words), payload, BytesOf(Line(words)) + payload);
    StoreWords(chunkId, data, trailing);
  }

  lemma {:induction false} StoreWords(chunkId: string, data: seq<byte>, trailing: seq<byte>)
    requires |data| <= Int32Max
    ensures ParseHeader(["STORE", chunkId, NatToString(|data|)], data + trailing) == Store(chunkId, data)
  {
    ToIntegralOfIntToString(|data|, Int32Min, Int32Max, true);
    assert (data + trailing)[..|data|] == data;
  }

  /** A RETRIEVE header is read as a retrieve of that chunk id. */
  lemma {:induction false} ParseRetrieve(chunkId: string, trailing: seq<byte>)
    requires Word(chunkId)
    ensures HeaderDefined(BytesOf(RetrieveHeader(chunkId)) + trailing)
    ensures ParseDatagram(BytesOf(RetrieveHeader(chunkId)) + trailing) == Retrieve(chunkId)
  {
    LineReadsBack(["RETRIEVE", chunkId], RetrieveHeader(chunkId), trailing, BytesOf(RetrieveHeader(chunkId)) + trailing);
  }

  /** A DATA reply splits at its first newline into the words
      `DATA <chunkId> <flag> <size>` and exactly the encoded payload. */
  lemma {:induction false} DataReplyReadsBack(chunkId: string, corrupted: bool, data: seq<byte>)
    requires Word(chunkId)
    ensures SplitAtNewline(BytesOf(DataHeader(chunkId, corrupted, |data|)) + data)
            == Some((["DATA", chunkId, FlagText(corrupted), NatToString(|data|)], data))
  {
    var words := ["DATA", chunkId, FlagText(corrupted), NatToString(|data|)];
    assert forall i :: 0 <= i < |words| ==> Word(words[i]) by {
      NumeralIsWord(|data|);
      assert Word("DATA") && Word(FlagText(corrupted));
    }
    var line := DataHeader(chunkId, corrupted, |data|);
    LineReadsBack(words, line, data, BytesOf(line) + data);
  }

  /** An ACK reads back as the words `ACK <chunkId> <ip> <port> <flag>`. */
  lemma {:induction false} AckReadsBack(chunkId: string, localIp: string, port: Port, corrupted: bool)
    requires Word(chunkId) && Word(localIp)
    ensures SplitAtNewline(BytesOf(AckLine(chunkId, localIp, port, corrupted)))
            == Some((["ACK", chunkId, localIp, NatToString(port), FlagText(corrupted)], []))
  {
    var words := ["ACK", chunkId, localIp, NatToString(port), FlagText(corrupted)];
    assert forall i :: 0 <= i < |words| ==> Word(words[i]) by {
      NumeralIsWord(port);
      assert Word("ACK") && Word(FlagText(corrupted));
    }
    var line := AckLine(chunkId, localIp, port, corrupted);
    var dg := BytesOf(line);
    assert dg == BytesOf(line) + [];
    LineReadsBack(words, line, [], dg);
  }

  // ---------------------------------------------------------------------------
  // The node's behaviour as a function of its state

  /** The chunk files and the datagrams written so far. */
  datatype NodeState = NodeState(files: map<string, seq<byte>>, sent: seq<Datagram>)

  /** `processStore`: decode, write the chunk file (when the write succeeds),
      and acknowledge in any case. */
  function Stored(s: NodeState, chunkId: string, data: seq<byte>, sender: Endpoint,
                  writeOk: bool, localIp: string, port: Port): NodeState
  {
    var (decoded, corrupted) := DecodeData(data);
    NodeState(if writeOk then s.files[chunkId := decoded] else s.files,
              s.sent + [Datagram(sender, BytesOf(AckLine(chunkId, localIp, port, corrupted)))])
  }

  /** `processRetrieve`: reply with the header and the encoded chunk, or with
      nothing when the chunk file cannot be opened. */
  function Retrieved(s: NodeState, chunkId: string, sender: Endpoint): NodeState
  {
    if chunkId !in s.files then s
    else
      var encoded := EncodeData(s.files[chunkId]);
      NodeState(s.files, s.sent + [Datagram(sender, BytesOf(DataHeader(chunkId, false, |encoded|)) + encoded)])
  }

  /** One pass of `onReadyRead`'s loop body. */
  function Step(s: NodeState, dg: Datagram, writeOk: bool, localIp: string, port: Port): NodeState
    requires HeaderDefined(dg.bytes)
  {
    match ParseDatagram(dg.bytes)
    case Store(chunkId, data) => Stored(s, chunkId, data, dg.peer, writeOk, localIp, port)
    case Retrieve(chunkId) => Retrieved(s, chunkId, dg.peer)
    case _ => s
  }

  predicate AllDefined(pending: seq<Datagram>)
  {
    forall i :: 0 <= i < |pending| ==> HeaderDefined(pending[i].bytes)
  }

  /** All pending datagrams, in order; `writeOk[i]` says whether the chunk
      write for datagram i succeeds. */
  function Run(s: NodeState, pending: seq<Datagram>, writeOk: seq<bool>, localIp: string, port: Port): NodeState
    requires |writeOk| == |pending| && AllDefined(pending)
    decreases |pending|
  {
    if |pending| == 0 then s
    else
      var n := |pending| - 1;
      Step(Run(s, pending[..n], writeOk[..n], localIp, port), pending[n], writeOk[n], localIp, port)
  }

  /** A STORE replaces the bytes under its chunk id (when the write succeeds),
      changes no other chunk, and is acknowledged exactly once whether or not
      the write succeeds. */
  lemma {:induction false} StoredEffect(s: NodeState, chunkId: string, data: seq<byte>, sender: Endpoint,
                     writeOk: bool, localIp: string, port: Port)
    ensures var t := Stored(s, chunkId, data, sender, writeOk, localIp, port);
      && (writeOk ==> chunkId in t.files && t.files[chunkId] == data)
      && (!writeOk ==> t.files == s.files)
      && (forall c :: c != chunkId ==> (c in t.files <==> c in s.files))
      && (forall c :: c != chunkId && c in s.files ==> t.files[c] == s.files[c])
      && t.sent == s.sent + [Datagram(sender, BytesOf(AckLine(chunkId, localIp, port, false)))]
  {
  }

  /** RETRIEVE never changes the chunk files; it replies exactly when the
      chunk is stored, and then with the header and the stored bytes. */
  lemma {:induction false} RetrievedEffect(s: NodeState, chunkId: string, sender: Endpoint)
    ensures Retrieved(s, chunkId, sender).files == s.files
    ensures Retrieved(s, chunkId, sender) == s <==> chunkId !in s.files
    ensures chunkId in s.files ==>
      Retrieved(s, chunkId, sender).sent
      == s.sent + [Datagram(sender, BytesOf(DataHeader(chunkId, false, |s.files[chunkId]|)) + s.files[chunkId])]
  {
    if chunkId in s.files {
      assert |Retrieved(s, chunkId, sender).sent| == |s.sent| + 1;
    }
  }

  /** A datagram without a newline, a STORE with too short a payload, and any
      other header change nothing and get no reply. */
  lemma {:induction false} DroppedUnchanged(s: NodeState, dg: Datagram, writeOk: bool, localIp: string, port: Port)
    requires HeaderDefined(dg.bytes)
    requires !ParseDatagram(dg.bytes).Store? && !ParseDatagram(dg.bytes).Retrieve?
    ensures Step(s, dg, writeOk, localIp, port) == s
  {
  }

  lemma {:induction false} StepStore(s: NodeState, dg: Datagram, writeOk: bool, localIp: string, port: Port,
                  chunkId: string, data: seq<byte>)
    requires HeaderDefined(dg.bytes) && ParseDatagram(dg.bytes) == Store(chunkId, data)
    ensures Step(s, dg, writeOk, localIp, port) == Stored(s, chunkId, data, dg.peer, writeOk, localIp, port)
  {
  }

  lemma {:induction false} StepRetrieve(s: NodeState, dg: Datagram, writeOk: bool, localIp: string, port: Port, chunkId: string)
    requires HeaderDefined(dg.bytes) && ParseDatagram(dg.bytes) == Retrieve(chunkId)
    ensures Step(s, dg, writeOk, localIp, port) == Retrieved(s, chunkId, dg.peer)
  {
  }

  /** With a newline at `nl`, the datagram is its header's command. */
  lemma {:induction false} ParseAtNewline(dg: seq<byte>, nl: nat)
    requires HeaderDefined(dg) && IndexOf(dg, Newline) == Some(nl)
    ensures |HeaderWords(dg[..nl])| >= 1
    ensures ParseDatagram(dg) == ParseHeader(HeaderWords(dg[..nl]), dg[nl + 1..])
  {
  }

  /** Serving the whole prefix is serving everything. */
  lemma {:induction false} RunWhole(s: NodeState, pending: seq<Datagram>, writeOk: seq<bool>, localIp: string, port: Port)
    requires |writeOk| == |pending| && AllDefined(pending)
    ensures pending[..|pending|] == pending && writeOk[..|pending|] == writeOk
  {
  }

  /** Serving one more datagram is one more step. */
  lemma {:induction false} RunSnoc(s: NodeState, pending: seq<Datagram>, writeOk: seq<bool>, localIp: string, port: Port, i: nat)
    requires |writeOk| == |pending| && AllDefined(pending) && i < |pending|
    ensures AllDefined(pending[..i]) && AllDefined(pending[..i + 1])
    ensures Run(s, pending[..i + 1], writeOk[..i + 1], localIp, port)
            == Step(Run(s, pending[..i], writeOk[..i], localIp, port), pending[i], writeOk[i], localIp, port)
  {
    assert pending[..i + 1][..i] == pending[..i] && writeOk[..i + 1][..i] == writeOk[..i];
  }

  /** Serving one datagram sends at most one datagram and keeps what was sent. */
  lemma {:induction false} StepAppends(s: NodeState, dg: Datagram, writeOk: bool, localIp: string, port: Port)
    requires HeaderDefined(dg.bytes)
    ensures var t := Step(s, dg, writeOk, localIp, port);
      |s.sent| <= |t.sent| <= |s.sent| + 1 && t.sent[..|s.sent|] == s.sent
  {
    match ParseDatagram(dg.bytes)
    case Store(chunkId, data) => StepStore(s, dg, writeOk, localIp, port, chunkId, data);
    case Retrieve(chunkId) => StepRetrieve(s, dg, writeOk, localIp, port, chunkId);
    case _ => DroppedUnchanged(s, dg, writeOk, localIp, port);
  }

  /** Scenario: STORE then RETRIEVE of the same chunk id replies with the
      stored bytes, with the corrupted flag 0. */
  lemma {:induction false} StoreThenRetrieve(s: NodeState, chunkId: string, data: seq<byte>, client: Endpoint,
                         localIp: string, port: Port)
    requires Word(chunkId) && |data| <= Int32Max
    ensures var store := Datagram(client, BytesOf(StoreHeader(chunkId, |data|)) + data);
      var retrieve := Datagram(client, BytesOf(RetrieveHeader(chunkId)));
      && HeaderDefined(store.bytes) && HeaderDefined(retrieve.bytes)
      && var t := Step(Step(s, store, true, localIp, port), retrieve, true, localIp, port);
      && t.files == s.files[chunkId := data]
      && t.sent == s.sent + [Datagram(client, BytesOf(AckLine(chunkId, localIp, port, false))),
                             Datagram(client, BytesOf(DataHeader(chunkId, false, |data|)) + data)]
  {
    var store := Datagram(client, BytesOf(StoreHeader(chunkId, |data|)) + data);
    var retrieve := Datagram(client, BytesOf(RetrieveHeader(chunkId)));
    ParseStore(chunkId, data, []);
    assert store.bytes + [] == store.bytes;
    ParseRetrieve(chunkId, []);
    assert retrieve.bytes + [] == retrieve.bytes;
    var mid := Stored(s, chunkId, data, client, true, localIp, port);
    StepStore(s, store, true, localIp, port, chunkId, data);
    StepRetrieve(mid, retrieve, true, localIp, port, chunkId);
  }

  /** Two STOREs to the same chunk id leave only the second payload; STOREs
      to different chunk ids leave the same files in either order. */
  lemma {:induction false} StoresOverwriteAndCommute(s: NodeState, a: string, b: string, x: seq<byte>, y: seq<byte>,
                                  sender: Endpoint, localIp: string, port: Port)
    ensures Stored(Stored(s, a, x, sender, true, localIp, port), a, y, sender, true, localIp, port).files
            == s.files[a := y]
    ensures a != b ==>
      Stored(Stored(s, a, x, sender, true, localIp, port), b, y, sender, true, localIp, port).files
      == Stored(Stored(s, b, y, sender, true, localIp, port), a, x, sender, true, localIp, port).files
  {
  }

  /** The node only ever appends to what it has sent, and at most one reply
      per datagram. */
  lemma {:induction false} RunAppends(s: NodeState, pending: seq<Datagram>, writeOk: seq<bool>,
                                      localIp: string, port: Port)
    requires |writeOk| == |pending| && AllDefined(pending)
    ensures var t := Run(s, pending, writeOk, localIp, port);
      && |s.sent| <= |t.sent| <= |s.sent| + |pending|
      && t.sent[..|s.sent|] == s.sent
    decreases |pending|
  {
    if |pending| > 0 {
      var n := |pending| - 1;
      assert AllDefined(pending[..n]);
      RunAppends(s, pending[..n], writeOk[..n], localIp, port);
      var r := Run(s, pending[..n], writeOk[..n], localIp, port);
      var t := Step(r, pending[n], writeOk[n], localIp, port);
      StepAppends(r, pending[n], writeOk[n], localIp, port);
      assert t.sent[..|s.sent|] == t.sent[..|r.sent|][..|s.sent|];
    }
  }

  // ---------------------------------------------------------------------------
  // The server

  class ChunkServer {
    const serverId: int
    const listenPort: Port
    const localIp: string
    const storageDir: string
    /** chunk id -> contents of `<storageDir>/<chunkId>.bin` */
    var files: map<string, seq<byte>>
    /** every datagram written to the socket, in order */
    var sent: seq<Datagram>

    function State(): NodeState
      reads this
    {
      NodeState(files, sent)
    }

    /** `files` is what the storage directory already holds. */
    constructor (serverId: int, localIp: string, files: map<string, seq<byte>>)
      ensures this.serverId == serverId && this.localIp == localIp
      ensures listenPort == ListenPort(serverId) && storageDir == StorageDir(serverId)
      ensures this.files == files && sent == []
    {
      this.serverId := serverId;
      this.localIp := localIp;
      listenPort := (BaseChunkPort + serverId) % 0x1_0000;
      storageDir := "./CHUNK-" + IntToString(serverId);
      this.files := files;
      sent := [];
    }

    method ProcessStore(chunkId: string, data: seq<byte>, sender: Endpoint, writeOk: bool)
      modifies this
      ensures State() == Stored(old(State()), chunkId, data, sender, writeOk, localIp, listenPort)
    {
      var (decoded, corrupted) := DecodeData(data);
      if writeOk {
        files := files[chunkId := decoded];
      }
      var ack := AckLine(chunkId, localIp, listenPort, corrupted);
      sent := sent + [Datagram(sender, BytesOf(ack))];
    }

    method ProcessRetrieve(chunkId: string, sender: Endpoint)
      modifies this
      ensures State() == Retrieved(old(State()), chunkId, sender)
    {
      if chunkId !in files {
        return;
      }
      var data := files[chunkId];
      var corrupted := false;
      var encoded := EncodeData(data);
      var header := DataHeader(chunkId, corrupted, |encoded|);
      sent := sent + [Datagram(sender, BytesOf(header) + encoded)];
    }

    /** `onReadyRead`: serve the pending datagrams in arrival order. */
    method OnReadyRead(pending: seq<Datagram>, writeOk: seq<bool>)
      requires |writeOk| == |pending| && AllDefined(pending)
      modifies this
      ensures State() == Run(old(State()), pending, writeOk, localIp, listenPort)
    {
      var i := 0;
      while i < |pending|
        invariant 0 <= i <= |pending|
        invariant State() == Run(old(State()), pending[..i], writeOk[..i], localIp, listenPort)
      {
        var dg := pending[i];
        ghost var before := State();
        RunSnoc(old(State()), pending, writeOk, localIp, listenPort, i);
        i := i + 1;
        var nl := IndexOf(dg.bytes, Newline);
        if nl.None? {
          DroppedUnchanged(before, dg, writeOk[i - 1], localIp, listenPort);
          continue;
        }
        var parts := HeaderWords(dg.bytes[..nl.value]);
        var payload := dg.bytes[nl.value + 1..];
        assert HeaderDefined(dg.bytes);
        ParseAtNewline(dg.bytes, nl.value);
        if parts[0] == "STORE" && |parts| == 3 {
          var cid := parts[1];
          var len := ToInt(parts[2]);
          if |payload| < len {
            DroppedUnchanged(before, dg, writeOk[i - 1], localIp, listenPort);
            continue;
          }
          StepStore(before, dg, writeOk[i - 1], localIp, listenPort, cid, Left(payload, len));
          ProcessStore(cid, Left(payload, len), dg.peer, writeOk[i - 1]);
        } else if parts[0] == "RETRIEVE" && |parts| == 2 {
          StepRetrieve(before, dg, writeOk[i - 1], localIp, listenPort, parts[1]);
          ProcessRetrieve(parts[1], dg.peer);
        } else {
          DroppedUnchanged(before, dg, writeOk[i - 1], localIp, listenPort);
        }
      }
      RunWhole(old(State()), pending, writeOk, localIp, listenPort);
    }
  }
}
