/** The coordinator ("master server"): a table from file id to the ordered list
    of that file's chunks and, for each chunk, the ordered list of storage
    nodes that hold a copy. It answers one text command per line:
    ALLOCATE_CHUNKS, LOOKUP_FILE and REGISTER_CHUNK_REPLICA. */
module Coordinator {
  import opened Common

  /** 8 KiB chunks. */
  const ChunkSize: int := 8 * 1024

  /** The fixed placeholder location every freshly allocated chunk gets. */
  const DummyIp: string := "127.0.0.1"
  const DummyPort: Port := 5000

  const ChunkTag: string := "_chunk_"

  const FileNotFoundReply: string := "ERROR File not found\n"
  const UnknownCommandReply: string := "ERROR Unknown command or invalid arguments\n"

  /** Largest size whose chunk count still fits a 32-bit int. */
  const MaxPlainSize: int := ChunkSize * Int32Max

  // ---------------------------------------------------------------------------
  // Data model

  /** Where one copy of a chunk lives. */
  datatype ChunkServerInfo = ChunkServerInfo(ip: string, port: Port)

  /** One chunk of a file and its copies, in the order they were recorded. */
  datatype ChunkInfo = ChunkInfo(chunkId: string, locations: seq<ChunkServerInfo>)

  /** A file's chunks, in byte-offset order. */
  datatype FileMetadata = FileMetadata(fileName: string, chunks: seq<ChunkInfo>)

  const DummyLocation: ChunkServerInfo := ChunkServerInfo(DummyIp, DummyPort)

  /** ChunkServerInfo::operator== */
  predicate SameServer(a: ChunkServerInfo, b: ChunkServerInfo)
  {
    a.ip == b.ip && a.port == b.port
  }

  /** Two locations are equal exactly when their ip and port are. */
  lemma {:induction false} SameServerIsEquality(a: ChunkServerInfo, b: ChunkServerInfo)
    ensures SameServer(a, b) <==> a == b
  {
  }

  /** QVector::contains, which compares with operator==. */
  predicate Contains(locations: seq<ChunkServerInfo>, loc: ChunkServerInfo)
  {
    exists l :: l in locations && SameServer(l, loc)
  }

  predicate NoDuplicates(locations: seq<ChunkServerInfo>)
  {
    forall i, j :: 0 <= i < j < |locations| ==> !SameServer(locations[i], locations[j])
  }

  // ---------------------------------------------------------------------------
  // Chunk count

  /** C++ integer division: the quotient is truncated toward zero. */
  function TruncDiv(a: int, b: int): (q: int)
    requires b > 0
    ensures a >= 0 ==> q == a / b
    ensures a < 0 ==> q <= 0 && -a - b < -q * b <= -a
  {
    if a >= 0 then a / b else -((-a) / b)
  }

  /** Narrowing to a 32-bit int keeps the low 32 bits (two's complement). */
  function ToInt32(x: int): (r: int)
    ensures Int32Min <= r <= Int32Max
    ensures (x - r) % 0x1_0000_0000 == 0
    ensures Int32Min <= x <= Int32Max ==> r == x
  {
    var m := x % 0x1_0000_0000;
    if m > Int32Max then m - 0x1_0000_0000 else m
  }

  /** `int numChunks = (size + chunkSize - 1) / chunkSize` with a qint64 size.
      The addition must not overflow (that would be undefined behaviour). */
  function NumChunks(size: int): (n: int)
    requires Int64Min <= size <= Int64Max - (ChunkSize - 1)
    ensures 0 <= size <= MaxPlainSize ==> n >= 0 && (n - 1) * ChunkSize < size <= n * ChunkSize
    ensures 0 <= size <= MaxPlainSize ==> n == (size + ChunkSize - 1) / ChunkSize
    ensures -2 * ChunkSize + 1 < size <= 0 ==> n == 0
  {
    ToInt32(TruncDiv(size + ChunkSize - 1, ChunkSize))
  }

  // ---------------------------------------------------------------------------
  // Chunk names

  /** `fileId + "_chunk_" + QString::number(i)` */
  function ChunkName(fileId: string, i: nat): string
  {
    fileId + ChunkTag + NatToString(i)
  }

  /** The longest run of digits that `s` ends with. */
  function TrailingDigits(s: string): (d: string)
    ensures |d| <= |s| && d == s[|s| - |d|..] && AllDigits(d)
    ensures |d| < |s| ==> !IsDigit(s[|s| - |d| - 1])
  {
    if |s| == 0 || !IsDigit(s[|s| - 1]) then ""
    else
      var d := TrailingDigits(s[..|s| - 1]);
      assert s[..|s| - 1][|s| - 1 - |d|..] + [s[|s| - 1]] == s[|s| - |d| - 1..];
      d + [s[|s| - 1]]
  }

  /** The file id and chunk index a chunk name was built from, if any. */
  function ParseChunkName(s: string): (r: Option<(string, nat)>)
    ensures r.Some? ==> s == ChunkName(r.value.0, r.value.1)
  {
    var d := TrailingDigits(s);
    var cut := |s| - |d| - |ChunkTag|;
    if |d| == 0 || cut < 0 then None
    else if s[cut..|s| - |d|] != ChunkTag || NatToString(DigitsValue(d)) != d then None
    else
      assert s == s[..cut] + s[cut..|s| - |d|] + d;
      Some((s[..cut], DigitsValue(d)))
  }

  /** A digit run behind a non-digit is exactly the trailing digit run. */
  lemma {:induction false} TrailingDigitsAfter(p: string, d: string)
    requires |p| >= 1 && !IsDigit(p[|p| - 1]) && AllDigits(d)
    ensures TrailingDigits(p + d) == d
  {
    var s := p + d;
    var t := TrailingDigits(s);
    assert s[|p| - 1] == p[|p| - 1];
    assert forall k :: |p| <= k < |s| ==> s[k] == d[k - |p|];
    assert forall k :: |s| - |t| <= k < |s| ==> s[k] == t[k - (|s| - |t|)];
    assert |t| == |d|;
    assert s[|s| - |d|..] == d;
  }

  /** Parsing a chunk name gives back the file id and the index. */
  lemma {:induction false} ParseChunkNameOfChunkName(fileId: string, i: nat)
    ensures ParseChunkName(ChunkName(fileId, i)) == Some((fileId, i))
  {
    var d := NatToString(i);
    var s := ChunkName(fileId, i);
    assert s == (fileId + ChunkTag) + d;
    TrailingDigitsAfter(fileId + ChunkTag, d);
    DigitsValueOfNatToString(i);
    var cut := |s| - |d| - |ChunkTag|;
    assert cut == |fileId|;
    assert s[cut..|s| - |d|] == ChunkTag;
    assert s[..cut] == fileId;
  }

  /** Chunk names never collide: distinct (file id, index) pairs, even of
      different files, get distinct names. */
  lemma {:induction false} ChunkNameInjective(f1: string, i1: nat, f2: string, i2: nat)
    requires ChunkName(f1, i1) == ChunkName(f2, i2)
    ensures f1 == f2 && i1 == i2
  {
    ParseChunkNameOfChunkName(f1, i1);
    ParseChunkNameOfChunkName(f2, i2);
  }

  // ---------------------------------------------------------------------------
  // The table and its invariant

  type Table = map<string, FileMetadata>

  /** What allocation and registration keep true of every entry: the entry is
      keyed by its own file name, chunk j is named `<key>_chunk_<j>`, and each
      chunk has at least one location and no location twice. */
  ghost predicate WellFormedEntry(key: string, md: FileMetadata)
  {
    && md.fileName == key
    && forall j :: 0 <= j < |md.chunks| ==>
         && md.chunks[j].chunkId == ChunkName(key, j)
         && |md.chunks[j].locations| >= 1
         && NoDuplicates(md.chunks[j].locations)
  }

  ghost predicate WellFormed(table: Table)
  {
    forall key :: key in table ==> WellFormedEntry(key, table[key])
  }

  /** In a well-formed table no two chunks, of the same file or of different
      files, share an id; so "the first chunk with this id" is the only one. */
  lemma {:induction false} ChunkIdsUnique(table: Table, k1: string, j1: nat, k2: string, j2: nat)
    requires WellFormed(table)
    requires k1 in table && j1 < |table[k1].chunks|
    requires k2 in table && j2 < |table[k2].chunks|
    requires table[k1].chunks[j1].chunkId == table[k2].chunks[j2].chunkId
    ensures k1 == k2 && j1 == j2
  {
    ChunkNameInjective(k1, j1, k2, j2);
  }

  // ---------------------------------------------------------------------------
  // ALLOCATE_CHUNKS

  /** A new chunk: its name and the single placeholder location. */
  function FreshChunk(fileId: string, i: nat): ChunkInfo
  {
    ChunkInfo(ChunkName(fileId, i), [DummyLocation])
  }

  /** The metadata allocation builds for `n` chunks (none when n <= 0). */
  function Allocation(fileId: string, n: int): FileMetadata
    decreases n
  {
    if n <= 0 then FileMetadata(fileId, [])
    else
      var md := Allocation(fileId, n - 1);
      md.(chunks := md.chunks + [FreshChunk(fileId, n - 1)])
  }

  /** An allocation of n chunks names chunk i `<fileId>_chunk_<i>`, in
      increasing i, and gives each exactly the one placeholder location. */
  lemma {:induction false} AllocationShape(fileId: string, n: int)
    ensures Allocation(fileId, n).fileName == fileId
    ensures |Allocation(fileId, n).chunks| == Max(n, 0)
    ensures forall i :: 0 <= i < |Allocation(fileId, n).chunks| ==>
              Allocation(fileId, n).chunks[i] == ChunkInfo(ChunkName(fileId, i), [DummyLocation])
    decreases n
  {
    if n > 0 {
      AllocationShape(fileId, n - 1);
    }
  }

  lemma {:induction false} AllocationWellFormed(fileId: string, n: int)
    ensures WellFormedEntry(fileId, Allocation(fileId, n))
  {
    AllocationShape(fileId, n);
  }

  function AllocateReply(n: int): string
  {
    "OK Allocated " + IntToString(n) + " chunks\n"
  }

  // ---------------------------------------------------------------------------
  // LOOKUP_FILE

  /** ` <ip> <port>` for each location, in order. */
  function LocationsText(locations: seq<ChunkServerInfo>): string
  {
    if |locations| == 0 then ""
    else LocationsText(locations[..|locations| - 1]) + LocationText(locations[|locations| - 1])
  }

  /** ` <ip> <port>` for one location. */
  function LocationText(loc: ChunkServerInfo): string
  {
    " " + loc.ip + " " + NatToString(loc.port)
  }

  /** ` <chunkId>` followed by its locations, for each chunk, in order. */
  function ChunksText(chunks: seq<ChunkInfo>): string
  {
    if |chunks| == 0 then ""
    else ChunksText(chunks[..|chunks| - 1]) + ChunkText(chunks[|chunks| - 1])
  }

  /** ` <chunkId>` followed by the chunk's locations. */
  function ChunkText(chunk: ChunkInfo): string
  {
    " " + chunk.chunkId + LocationsText(chunk.locations)
  }

  /** One more location extends the text of a prefix by that location. */
  lemma {:induction false} LocationsTextSnoc(locations: seq<ChunkServerInfo>, l: nat)
    requires l < |locations|
    ensures LocationsText(locations[..l + 1]) == LocationsText(locations[..l]) + LocationText(locations[l])
  {
    assert locations[..l + 1][..l] == locations[..l];
  }

  /** One more chunk extends the text of a prefix by that chunk. */
  lemma {:induction false} ChunksTextSnoc(chunks: seq<ChunkInfo>, c: nat)
    requires c < |chunks|
    ensures ChunksText(chunks[..c + 1]) == ChunksText(chunks[..c]) + ChunkText(chunks[c])
  {
    assert chunks[..c + 1][..c] == chunks[..c];
  }

  function LookupReply(table: Table, fileId: string): string
  {
    if fileId in table then
      "FILE_METADATA " + table[fileId].fileName + ChunksText(table[fileId].chunks) + "\n"
    else FileNotFoundReply
  }

  /** The words of a lookup reply: for each chunk its id, then `ip port` for
      each of its locations. */
  function LocationTokens(locations: seq<ChunkServerInfo>): seq<string>
  {
    if |locations| == 0 then []
    else
      var last := locations[|locations| - 1];
      LocationTokens(locations[..|locations| - 1]) + [last.ip, NatToString(last.port)]
  }

  function ChunkTokens(chunks: seq<ChunkInfo>): seq<string>
  {
    if |chunks| == 0 then []
    else
      var last := chunks[|chunks| - 1];
      ChunkTokens(chunks[..|chunks| - 1]) + [last.chunkId] + LocationTokens(last.locations)
  }

  predicate SpaceFree(s: string) { ' ' !in s && s != [] }

  /** Names, chunk ids and ips that are single words. */
  predicate SpaceFreeMetadata(md: FileMetadata)
  {
    && SpaceFree(md.fileName)
    && forall c :: c in md.chunks ==>
         SpaceFree(c.chunkId) && forall l :: l in c.locations ==> SpaceFree(l.ip)
  }

  lemma {:induction false} LocationsTextIsSeparated(locations: seq<ChunkServerInfo>)
    ensures LocationsText(locations) == Separated(LocationTokens(locations), ' ')
    decreases |locations|
  {
    if |locations| > 0 {
      var init := locations[..|locations| - 1];
      var last := locations[|locations| - 1];
      LocationsTextIsSeparated(init);
      SeparatedConcat(LocationTokens(init), [last.ip, NatToString(last.port)], ' ');
      SeparatedTwo(last.ip, NatToString(last.port), ' ');
    }
  }

  lemma {:induction false} ChunksTextIsSeparated(chunks: seq<ChunkInfo>)
    ensures ChunksText(chunks) == Separated(ChunkTokens(chunks), ' ')
    decreases |chunks|
  {
    if |chunks| > 0 {
      var init := chunks[..|chunks| - 1];
      var last := chunks[|chunks| - 1];
      ChunksTextIsSeparated(init);
      LocationsTextIsSeparated(last.locations);
      SeparatedConcat(ChunkTokens(init) + [last.chunkId], LocationTokens(last.locations), ' ');
      SeparatedConcat(ChunkTokens(init), [last.chunkId], ' ');
      SeparatedOne(last.chunkId, ' ');
    }
  }

  lemma {:induction false} LocationTokensSpaceFree(locations: seq<ChunkServerInfo>)
    requires forall l :: l in locations ==> SpaceFree(l.ip)
    ensures forall t :: t in LocationTokens(locations) ==> ' ' !in t
    decreases |locations|
  {
    if |locations| > 0 {
      LocationTokensSpaceFree(locations[..|locations| - 1]);
    }
  }

  lemma {:induction false} ChunkTokensSpaceFree(chunks: seq<ChunkInfo>)
    requires forall c :: c in chunks ==>
               SpaceFree(c.chunkId) && forall l :: l in c.locations ==> SpaceFree(l.ip)
    ensures forall t :: t in ChunkTokens(chunks) ==> ' ' !in t
    decreases |chunks|
  {
    if |chunks| > 0 {
      var last := chunks[|chunks| - 1];
      ChunkTokensSpaceFree(chunks[..|chunks| - 1]);
      LocationTokensSpaceFree(last.locations);
    }
  }

  /** The FILE_METADATA line without its newline joins its words with spaces. */
  lemma {:induction false} LookupReplyJoin(md: FileMetadata)
    ensures Join(["FILE_METADATA", md.fileName] + ChunkTokens(md.chunks), ' ')
         == "FILE_METADATA " + md.fileName + ChunksText(md.chunks)
  {
    var words := ["FILE_METADATA", md.fileName] + ChunkTokens(md.chunks);
    var text := ChunksText(md.chunks);
    assert words[1..] == [md.fileName] + ChunkTokens(md.chunks);
    ChunksTextIsSeparated(md.chunks);
    SeparatedConcat([md.fileName], ChunkTokens(md.chunks), ' ');
    SeparatedOne(md.fileName, ' ');
    assert Join(words, ' ') == "FILE_METADATA" + (([' '] + md.fileName) + text);
    ConcatAssociates("FILE_METADATA", [' '] + md.fileName, text);
    ConcatAssociates("FILE_METADATA", [' '], md.fileName);
    assert "FILE_METADATA" + [' '] == "FILE_METADATA ";
  }

  /** A client reading a FILE_METADATA line splits it back into the file name
      and, in stored order, each chunk id followed by its `ip port` pairs. */
  lemma {:induction false} LookupReplyWords(table: Table, fileId: string)
    requires fileId in table && SpaceFreeMetadata(table[fileId])
    ensures var r := LookupReply(table, fileId);
      && |r| >= 1 && r[|r| - 1] == '\n'
      && Split(r[..|r| - 1], ' ')
         == ["FILE_METADATA", table[fileId].fileName] + ChunkTokens(table[fileId].chunks)
  {
    var md := table[fileId];
    var words := ["FILE_METADATA", md.fileName] + ChunkTokens(md.chunks);
    var r := LookupReply(table, fileId);
    assert |r| >= 1 && r[|r| - 1] == '\n' && r[..|r| - 1] == Join(words, ' ') by {
      LookupReplyJoin(md);
    }
    assert forall i :: 0 <= i < |words| ==> ' ' !in words[i] by {
      ChunkTokensSpaceFree(md.chunks);
      forall i | 0 <= i < |words| ensures ' ' !in words[i] {
        if i >= 2 {
          assert words[i] in ChunkTokens(md.chunks);
        }
      }
    }
    SplitOfJoin(words, ' ');
  }

  // ---------------------------------------------------------------------------
  // REGISTER_CHUNK_REPLICA

  /** The chunk with the given id, extended by `loc` unless an equal location
      is already recorded; every other chunk as it was. */
  function WithReplica(chunk: ChunkInfo, chunkId: string, loc: ChunkServerInfo): ChunkInfo
  {
    if chunk.chunkId == chunkId && !Contains(chunk.locations, loc)
    then chunk.(locations := chunk.locations + [loc])
    else chunk
  }

  /** The table after registering `loc` for `chunkId`: every chunk with that
      id gets the location appended unless an equal one is recorded. In a
      well-formed table at most one chunk has the id (ChunkIdsUnique), so this
      is what the source's search, which stops at the first match in the
      hash's unspecified order, does. */
  function Registered(table: Table, chunkId: string, loc: ChunkServerInfo): Table
  {
    map k | k in table ::
      table[k].(chunks := seq(|table[k].chunks|, j requires 0 <= j < |table[k].chunks| =>
                              WithReplica(table[k].chunks[j], chunkId, loc)))
  }

  /** Registration touches only the chunk whose id matches: it appends `loc`
      at the end of that chunk's locations when no equal location is there,
      and leaves every other chunk, file and key as it was. */
  lemma {:induction false} RegisteredEffect(table: Table, chunkId: string, loc: ChunkServerInfo)
    ensures Registered(table, chunkId, loc).Keys == table.Keys
    ensures forall k :: k in table ==>
              && Registered(table, chunkId, loc)[k].fileName == table[k].fileName
              && |Registered(table, chunkId, loc)[k].chunks| == |table[k].chunks|
    ensures forall k, j :: k in table && 0 <= j < |table[k].chunks| ==>
              Registered(table, chunkId, loc)[k].chunks[j] == WithReplica(table[k].chunks[j], chunkId, loc)
  {
  }

  /** With ids unique, registering at the chunk (key, j) that has the id is
      the same as changing that one chunk in place. */
  lemma {:induction false} RegisteredAt(table: Table, chunkId: string, loc: ChunkServerInfo, key: string, j: nat)
    requires WellFormed(table) && key in table && j < |table[key].chunks|
    requires table[key].chunks[j].chunkId == chunkId
    ensures Registered(table, chunkId, loc)
            == table[key := table[key].(chunks := table[key].chunks[j := WithReplica(table[key].chunks[j], chunkId, loc)])]
  {
    var r := Registered(table, chunkId, loc);
    var t := table[key := table[key].(chunks := table[key].chunks[j := WithReplica(table[key].chunks[j], chunkId, loc)])];
    forall k | k in table ensures r[k] == t[k] {
      forall i | 0 <= i < |table[k].chunks| ensures r[k].chunks[i] == t[k].chunks[i] {
        if k != key || i != j {
          if table[k].chunks[i].chunkId == chunkId {
            ChunkIdsUnique(table, k, i, key, j);
          }
        }
      }
    }
  }

  /** Registering a location that is already recorded, or for a chunk id no
      chunk has, changes nothing. */
  lemma {:induction false} RegisteredUnchanged(table: Table, chunkId: string, loc: ChunkServerInfo)
    requires forall k, j :: k in table && 0 <= j < |table[k].chunks| && table[k].chunks[j].chunkId == chunkId
               ==> Contains(table[k].chunks[j].locations, loc)
    ensures Registered(table, chunkId, loc) == table
  {
    var r := Registered(table, chunkId, loc);
    forall k | k in table ensures r[k] == table[k] {
      assert r[k].chunks == table[k].chunks;
    }
  }

  /** Registration keeps the table well formed; in particular a chunk's
      locations stay non-empty and free of duplicates. */
  lemma {:induction false} RegisteredWellFormed(table: Table, chunkId: string, loc: ChunkServerInfo)
    requires WellFormed(table)
    ensures WellFormed(Registered(table, chunkId, loc))
  {
    var r := Registered(table, chunkId, loc);
    forall k, j | k in r && 0 <= j < |r[k].chunks|
      ensures NoDuplicates(r[k].chunks[j].locations)
    {
      var c := table[k].chunks[j];
      if c.chunkId == chunkId && !Contains(c.locations, loc) {
        var ls := c.locations + [loc];
        forall a, b | 0 <= a < b < |ls| ensures !SameServer(ls[a], ls[b]) {
          if b == |ls| - 1 {
            assert ls[a] in c.locations;
          }
        }
      }
    }
  }

  /** Registering the same location twice has the effect of registering it once. */
  lemma {:induction false} RegisteredIdempotent(table: Table, chunkId: string, loc: ChunkServerInfo)
    requires WellFormed(table)
    ensures Registered(Registered(table, chunkId, loc), chunkId, loc) == Registered(table, chunkId, loc)
  {
    var once := Registered(table, chunkId, loc);
    forall k, j | k in once && 0 <= j < |once[k].chunks| && once[k].chunks[j].chunkId == chunkId
      ensures Contains(once[k].chunks[j].locations, loc)
    {
      var c := table[k].chunks[j];
      if !Contains(c.locations, loc) {
        assert once[k].chunks[j].locations == c.locations + [loc];
        assert loc in once[k].chunks[j].locations;
      }
    }
    RegisteredUnchanged(once, chunkId, loc);
  }

  // ---------------------------------------------------------------------------
  // Request dispatch

  datatype Request =
    | AllocateChunks(fileId: string, size: int)
    | LookupFile(fileId: string)
    | RegisterChunkReplica(chunkId: string, addr: string, port: Port)
    | Unknown

  /** `handleRequest`'s reading of the words of one line: the first word is
      the command, checked with its minimum word count; words beyond those
      used are ignored. */
  function ParseWords(parts: seq<string>): Request
    requires |parts| >= 1
  {
    var command := parts[0];
    if command == "ALLOCATE_CHUNKS" && |parts| >= 3 then AllocateChunks(parts[1], ToLongLong(parts[2]))
    else if command == "LOOKUP_FILE" && |parts| >= 2 then LookupFile(parts[1])
    else if command == "REGISTER_CHUNK_REPLICA" && |parts| >= 4 then
      RegisterChunkReplica(parts[1], parts[2], ToUShort(parts[3]))
    else Unknown
  }

  /** A line is split on single spaces, empty words kept. */
  function ParseRequest(data: string): Request
  {
    ParseWords(Split(data, ' '))
  }

  /** The words a client writes for a request. */
  function RequestWords(req: Request): seq<string>
  {
    match req
    case AllocateChunks(fileId, size) => ["ALLOCATE_CHUNKS", fileId, IntToString(size)]
    case LookupFile(fileId) => ["LOOKUP_FILE", fileId]
    case RegisterChunkReplica(chunkId, addr, port) => ["REGISTER_CHUNK_REPLICA", chunkId, addr, NatToString(port)]
    case Unknown => []
  }

  /** A request whose text fields are single words and whose size is a qint64. */
  predicate Sendable(req: Request)
  {
    match req
    case AllocateChunks(fileId, size) => ' ' !in fileId && Int64Min <= size <= Int64Max
    case LookupFile(fileId) => ' ' !in fileId
    case RegisterChunkReplica(chunkId, addr, _) => ' ' !in chunkId && ' ' !in addr
    case Unknown => false
  }

  /** The words of every sendable request are read back as that request,
      whatever extra words follow them. */
  lemma {:induction false} ParseWordsOfRequestWords(req: Request, extra: seq<string>)
    requires Sendable(req)
    ensures ParseWords(RequestWords(req) + extra) == req
  {
    match req
    case AllocateChunks(fileId, size) =>
      ToIntegralOfIntToString(size, Int64Min, Int64Max, true);
    case LookupFile(fileId) =>
    case RegisterChunkReplica(chunkId, addr, port) =>
      ToIntegralOfIntToString(port, 0, 0xFFFF, false);
  }

  /** Every sendable request, written as a line of words, is read back as
      itself, whatever extra words follow it. */
  lemma {:induction false} ParseRequestWords(req: Request, extra: seq<string>)
    requires Sendable(req)
    requires forall i :: 0 <= i < |extra| ==> ' ' !in extra[i]
    ensures ParseRequest(Join(RequestWords(req) + extra, ' ')) == req
  {
    var words := RequestWords(req) + extra;
    assert forall i :: 0 <= i < |words| ==> ' ' !in words[i];
    SplitOfJoin(words, ' ');
    ParseWordsOfRequestWords(req, extra);
  }

  /** Defined behaviour: an allocation's `size + chunkSize - 1` must not overflow. */
  predicate WellDefined(data: string)
  {
    var req := ParseRequest(data);
    req.AllocateChunks? ==> req.size <= Int64Max - (ChunkSize - 1)
  }

  /** The new table and the reply line (if any) for one request line. */
  function Respond(table: Table, data: string): (Table, Option<string>)
    requires WellDefined(data)
  {
    match ParseRequest(data)
    case AllocateChunks(fileId, size) =>
      var n := NumChunks(size);
      (table[fileId := Allocation(fileId, n)], Some(AllocateReply(n)))
    case LookupFile(fileId) => (table, Some(LookupReply(table, fileId)))
    case RegisterChunkReplica(chunkId, addr, port) =>
      (Registered(table, chunkId, ChunkServerInfo(addr, port)), None)
    case Unknown => (table, Some(UnknownCommandReply))
  }

  /** The "unknown command" error is sent exactly for lines that are no
      recognised command with enough words, and then nothing changes. */
  lemma {:induction false} UnknownCommandExactly(table: Table, data: string)
    requires WellDefined(data)
    ensures Respond(table, data).1 == Some(UnknownCommandReply) <==> ParseRequest(data).Unknown?
    ensures ParseRequest(data).Unknown? ==> Respond(table, data).0 == table
  {
    match ParseRequest(data)
    case AllocateChunks(fileId, size) =>
      assert AllocateReply(NumChunks(size))[0] == 'O';
    case LookupFile(fileId) =>
      var r := LookupReply(table, fileId);
      assert r[1] != UnknownCommandReply[1] || r[6] != UnknownCommandReply[6];
    case RegisterChunkReplica(_, _, _) =>
    case Unknown =>
  }

  /** Allocating again replaces the file's entry wholesale: a lookup then lists
      exactly the new chunks, and other files are untouched. */
  lemma {:induction false} ReallocationReplaces(table: Table, fileId: string, size: int, other: string)
    requires Int64Min <= size <= Int64Max - (ChunkSize - 1)
    requires other != fileId
    ensures var t := table[fileId := Allocation(fileId, NumChunks(size))];
      && LookupReply(t, fileId)
         == "FILE_METADATA " + fileId + ChunksText(Allocation(fileId, NumChunks(size)).chunks) + "\n"
      && LookupReply(t, other) == LookupReply(table, other)
  {
    AllocationShape(fileId, NumChunks(size));
  }

  /** Scenario: the line `ALLOCATE_CHUNKS <fileId> 20000` gives a 20,000-byte
      file three chunks, `<fileId>_chunk_0` to `<fileId>_chunk_2`, each with
      the placeholder location, and leaves the other files alone. */
  lemma {:induction false} AllocateTwentyThousandBytes(table: Table, fileId: string)
    requires ' ' !in fileId
    ensures Join(["ALLOCATE_CHUNKS", fileId, "20000"], ' ') == "ALLOCATE_CHUNKS " + fileId + " 20000"
    ensures ParseRequest(Join(["ALLOCATE_CHUNKS", fileId, "20000"], ' ')) == AllocateChunks(fileId, 20000)
    ensures var (t, reply) := Respond(table, Join(["ALLOCATE_CHUNKS", fileId, "20000"], ' '));
      && reply == Some("OK Allocated 3 chunks\n")
      && t.Keys == table.Keys + {fileId}
      && (forall k :: k in table && k != fileId ==> t[k] == table[k])
      && t[fileId].chunks
         == [ChunkInfo(fileId + "_chunk_0", [DummyLocation]),
             ChunkInfo(fileId + "_chunk_1", [DummyLocation]),
             ChunkInfo(fileId + "_chunk_2", [DummyLocation])]
  {
    AllocateLine(fileId);
    AllocateLineParses(fileId);
    ThreeChunks(fileId);
  }

  lemma {:induction false} AllocateLine(fileId: string)
    ensures Join(["ALLOCATE_CHUNKS", fileId, "20000"], ' ') == "ALLOCATE_CHUNKS " + fileId + " 20000"
  {
    SeparatedTwo(fileId, "20000", ' ');
  }

  lemma {:induction false} AllocateLineParses(fileId: string)
    requires ' ' !in fileId
    ensures ParseRequest(Join(["ALLOCATE_CHUNKS", fileId, "20000"], ' ')) == AllocateChunks(fileId, 20000)
  {
    var req := AllocateChunks(fileId, 20000);
    assert IntToString(20000) == "20000";
    assert RequestWords(req) == ["ALLOCATE_CHUNKS", fileId, "20000"];
    assert RequestWords(req) + [] == RequestWords(req);
    ParseRequestWords(req, []);
  }

  lemma {:induction false} ThreeChunks(fileId: string)
    ensures NumChunks(20000) == 3
    ensures AllocateReply(3) == "OK Allocated 3 chunks\n"
    ensures Allocation(fileId, 3).chunks
            == [ChunkInfo(fileId + "_chunk_0", [DummyLocation]),
                ChunkInfo(fileId + "_chunk_1", [DummyLocation]),
                ChunkInfo(fileId + "_chunk_2", [DummyLocation])]
  {
    AllocationShape(fileId, 3);
    assert NatToString(0) == "0" && NatToString(1) == "1" && NatToString(2) == "2";
    assert ChunkName(fileId, 0) == fileId + "_chunk_0";
    assert ChunkName(fileId, 1) == fileId + "_chunk_1";
    assert ChunkName(fileId, 2) == fileId + "_chunk_2";
  }

  // ---------------------------------------------------------------------------
  // The server

  /** The body of `lookupFile`'s outer loop: append ` <chunkId>` and then
      ` <ip> <port>` for each location of the chunk. */
  method AppendChunk(response: string, chunk: ChunkInfo) returns (r: string)
    ensures r == response + ChunkText(chunk)
  {
    var head := response + (" " + chunk.chunkId);
    r := head;
    var l := 0;
    while l < |chunk.locations|
      invariant 0 <= l <= |chunk.locations|
      invariant r == head + LocationsText(chunk.locations[..l])
    {
      var loc := chunk.locations[l];
      LocationsTextSnoc(chunk.locations, l);
      r := r + (" " + loc.ip + " " + NatToString(loc.port));
      l := l + 1;
    }
    assert chunk.locations[..l] == chunk.locations;
  }

  class MasterServer {
    /** fileMetadata: file id -> metadata; at most one entry per id. */
    var fileMetadata: Table

    ghost predicate Valid()
      reads this
    {
      WellFormed(fileMetadata)
    }

    constructor ()
      ensures Valid() && fileMetadata == map[]
    {
      fileMetadata := map[];
    }

    /** `allocateChunks`: build the chunk list in order, then replace the
        entry for `fileId`. */
    method AllocateChunks(fileId: string, size: int) returns (reply: string)
      requires Valid()
      requires Int64Min <= size <= Int64Max - (ChunkSize - 1)
      modifies this
      ensures Valid()
      ensures fileMetadata == old(fileMetadata)[fileId := Allocation(fileId, NumChunks(size))]
      ensures reply == AllocateReply(NumChunks(size))
    {
      var numChunks := NumChunks(size);
      var metadata := FileMetadata(fileId, []);
      var i := 0;
      while i < numChunks
        invariant 0 <= i <= Max(numChunks, 0)
        invariant metadata == Allocation(fileId, i)
      {
        var chunk := ChunkInfo(ChunkName(fileId, i), []);
        chunk := chunk.(locations := chunk.locations + [DummyLocation]);
        assert chunk == FreshChunk(fileId, i);
        metadata := metadata.(chunks := metadata.chunks + [chunk]);
        i := i + 1;
      }
      if numChunks <= 0 {
        assert i == 0 && Allocation(fileId, numChunks) == Allocation(fileId, 0);
      }
      assert metadata == Allocation(fileId, numChunks);
      AllocationWellFormed(fileId, numChunks);
      fileMetadata := fileMetadata[fileId := metadata];
      reply := "OK Allocated " + IntToString(numChunks) + " chunks\n";
    }

    /** `lookupFile`: format the entry for `fileId`, or report it missing. */
    method LookupFile(fileId: string) returns (reply: string)
      ensures reply == LookupReply(fileMetadata, fileId)
    {
      if fileId in fileMetadata {
        var metadata := fileMetadata[fileId];
        var response := "FILE_METADATA " + metadata.fileName;
        var c := 0;
        while c < |metadata.chunks|
          invariant 0 <= c <= |metadata.chunks|
          invariant response == "FILE_METADATA " + metadata.fileName + ChunksText(metadata.chunks[..c])
        {
          var chunk := metadata.chunks[c];
          response := AppendChunk(response, chunk);
          ChunksTextSnoc(metadata.chunks, c);
          c := c + 1;
        }
        assert metadata.chunks[..c] == metadata.chunks;
        response := response + "\n";
        reply := response;
      } else {
        reply := "ERROR File not found\n";
      }
    }

    /** `registerChunkReplica`: walk the files (in the hash's unspecified
        order) and their chunks; at the first chunk with this id append the
        location unless an equal one is there, and stop. */
    method RegisterChunkReplica(chunkId: string, addr: string, port: Port)
      requires Valid()
      modifies this
      ensures Valid()
      ensures fileMetadata == Registered(old(fileMetadata), chunkId, ChunkServerInfo(addr, port))
    {
      var newLoc := ChunkServerInfo(addr, port);
      RegisteredWellFormed(fileMetadata, chunkId, newLoc);
      var pending := fileMetadata.Keys;
      while pending != {}
        invariant pending <= fileMetadata.Keys
        invariant fileMetadata == old(fileMetadata)
        invariant forall k, j :: k in fileMetadata && k !in pending && 0 <= j < |fileMetadata[k].chunks| ==>
                    fileMetadata[k].chunks[j].chunkId != chunkId
        decreases pending
      {
        var key :| key in pending;
        var metadata := fileMetadata[key];
        var j := 0;
        while j < |metadata.chunks|
          invariant 0 <= j <= |metadata.chunks|
          invariant forall j' :: 0 <= j' < j ==> metadata.chunks[j'].chunkId != chunkId
        {
          var chunk := metadata.chunks[j];
          if chunk.chunkId == chunkId {
            RegisteredAt(fileMetadata, chunkId, newLoc, key, j);
            if !Contains(chunk.locations, newLoc) {
              var updated := chunk.(locations := chunk.locations + [newLoc]);
              fileMetadata := fileMetadata[key := metadata.(chunks := metadata.chunks[j := updated])];
            } else {
              assert metadata.chunks[j := chunk] == metadata.chunks;
            }
            return;
          }
          j := j + 1;
        }
        pending := pending - {key};
      }
      RegisteredUnchanged(fileMetadata, chunkId, newLoc);
    }

    /** `handleRequest`: dispatch one line and return the reply line, if the
        command has one (replica registration sends none). */
    method HandleRequest(data: string) returns (reply: Option<string>)
      requires Valid()
      requires WellDefined(data)
      modifies this
      ensures Valid()
      ensures (fileMetadata, reply) == Respond(old(fileMetadata), data)
    {
      var parts := Split(data, ' ');
      var command := parts[0];
      if command == "ALLOCATE_CHUNKS" && |parts| >= 3 {
        var text := AllocateChunks(parts[1], ToLongLong(parts[2]));
        reply := Some(text);
      } else if command == "LOOKUP_FILE" && |parts| >= 2 {
        var text := LookupFile(parts[1]);
        reply := Some(text);
      } else if command == "REGISTER_CHUNK_REPLICA" && |parts| >= 4 {
        RegisterChunkReplica(parts[1], parts[2], ToUShort(parts[3]));
        reply := None;
      } else {
        reply := Some("ERROR Unknown command or invalid arguments\n");
      }
    }
  }
}
