/** The uploader on the host: it reads the board's identity record, pads the
    image and computes its CRC, cuts it into the packets of the update
    protocol, and hands each packet to the serial radio bridge. Serial I/O is
    replaced by the lines the bridge answers with, given as parameters. */
module Upload {
  import opened Bytes
  import opened Protocol
  import opened Crc16

  // ---------------------------------------------------------------------------
  // `read_data`: the image and its CRC.

  /** The number of 0xFF bytes `read_data` appends: `[0xff] * n` is empty
      when `n` is not positive. */
  function PadLength(imageLength: nat, appSize: int): nat
  {
    if appSize > imageLength then appSize - imageLength else 0
  }

  /** The image padded with erased bytes up to the application size. */
  function PaddedImage(raw: seq<byte>, appSize: int): (r: seq<byte>)
    ensures |r| == if appSize > |raw| then appSize else |raw|
    ensures r[..|raw|] == raw
    ensures forall i :: |raw| <= i < |r| ==> r[i] == ERASED
  {
    raw + Erased(PadLength(|raw|, appSize))
  }

  /** `read_data`: the image, unchanged, and the CRC of the padded image. */
  function ReadData(raw: seq<byte>, appSize: int): (r: (seq<byte>, uint16))
    ensures r.0 == raw
  {
    (raw, Checksum(PaddedImage(raw, appSize)))
  }

  /** An image as large as the application region or larger is not padded. */
  lemma ReadDataUnpadded(raw: seq<byte>, appSize: int)
    requires appSize <= |raw|
    ensures ReadData(raw, appSize).1 == Checksum(raw)
  {
    assert PaddedImage(raw, appSize) == raw;
  }

  /** The CRC `read_data` sends is the CRC of the image, carried on over the
      padding: the uploader could run `crc16` over the file alone and finish
      over `PadLength` bytes of 0xFF. */
  lemma ReadDataResumes(raw: seq<byte>, appSize: int)
    ensures ReadData(raw, appSize).1 == Resume(Checksum(raw), Erased(PadLength(|raw|, appSize)))
  {
    ChecksumAppend(raw, Erased(PadLength(|raw|, appSize)));
  }

  // ---------------------------------------------------------------------------
  // `send_data`: the packet sequence.

  /** The uploader's chunk size: 3 header bytes and 29 data bytes fill one
      32-byte radio payload. */
  const CHUNK_SIZE: nat := 29

  /** `b"B" + struct.pack('<H', offset) + chunk`. The receiver reads the
      offset back from bytes 1 and 2, and the chunk from byte 3 on. */
  function DataPacket(offset: uint16, chunk: seq<byte>): (r: seq<byte>)
    ensures |r| == 3 + |chunk| && r[0] == TAG_APPEND
    ensures FromLE16(r[1], r[2]) == offset && r[3..] == chunk
  {
    [TAG_APPEND] + LE16(offset) + chunk
  }

  /** `b"w" + struct.pack('<H', crc)`. */
  function FinalizePacket(crc: uint16): (r: seq<byte>)
    ensures |r| == 3 && r[0] == TAG_FINALIZE && FromLE16(r[1], r[2]) == crc
  {
    [TAG_FINALIZE] + LE16(crc)
  }

  /** The 'B' packet of the `k`-th chunk of a page. Every chunk before it is
      full, so its offset is `k * CHUNK_SIZE`. */
  function ChunkPacket(page: seq<byte>, k: nat): seq<byte>
    requires |page| < 0x1_0000 && k < CeilDiv(|page|, CHUNK_SIZE)
  {
    SliceStart(|page|, CHUNK_SIZE, k);
    DataPacket(k * CHUNK_SIZE, Slice(page, CHUNK_SIZE, k))
  }

  /** The 'B' packets of one page, in order. */
  function ChunkPackets(page: seq<byte>): seq<seq<byte>>
    requires |page| < 0x1_0000
  {
    seq(CeilDiv(|page|, CHUNK_SIZE),
        k requires 0 <= k < CeilDiv(|page|, CHUNK_SIZE) => ChunkPacket(page, k))
  }

  /** One page: its 'B' packets, then 'm'. */
  function PagePackets(page: seq<byte>): seq<seq<byte>>
    requires |page| < 0x1_0000
  {
    ChunkPackets(page) + [[TAG_COMMIT]]
  }

  /** The packets of every page, page by page. */
  function PagePlan(raw: seq<byte>, pageSize: nat): (r: seq<seq<seq<byte>>>)
    requires 0 < pageSize < 0x1_0000
    ensures |r| == CeilDiv(|raw|, pageSize)
  {
    var pages := Slices(raw, pageSize);
    seq(|pages|, j requires 0 <= j < |pages| => PagePackets(pages[j]))
  }

  /** Everything `send_data` sends, in order: 'e', the pages, 'w' with the CRC. */
  function SendPackets(raw: seq<byte>, pageSize: nat, crc: uint16): (r: seq<seq<byte>>)
    requires 0 < pageSize < 0x1_0000
    ensures |r| >= 2 && r[0] == [TAG_ERASE] && r[|r| - 1] == FinalizePacket(crc)
  {
    [[TAG_ERASE]] + Flatten(PagePlan(raw, pageSize)) + [FinalizePacket(crc)]
  }

  /** `send_data`: the nested loops over pages and chunks, with the running
      `page_offset` and `transmitted` counters. The packets are returned in
      the order they are handed to `send_packet`; `pageSize` is the one the
      board reported, which is never 0. */
  method SendData(raw: seq<byte>, pageSize: nat, crc: uint16) returns (sent: seq<seq<byte>>, transmitted: nat)
    requires 0 < pageSize < 0x1_0000
    ensures sent == SendPackets(raw, pageSize, crc)
    ensures transmitted == |raw|
  {
    sent := [[TAG_ERASE]];
    transmitted := 0;
    var pages := Slices(raw, pageSize);
    ghost var plan := PagePlan(raw, pageSize);
    for j := 0 to |pages|
      invariant sent == [[TAG_ERASE]] + Flatten(plan[..j])
      invariant transmitted == |Flatten(pages[..j])|
    {
      var page := pages[j];
      var chunkPackets, pageOffset := SendChunks(page);
      assert chunkPackets + [[TAG_COMMIT]] == plan[j];
      AppendAssoc([[TAG_ERASE]], Flatten(plan[..j]), plan[j]);
      FlattenPrefixSnoc(plan, j + 1);
      FlattenPrefixSnoc(pages, j + 1);
      sent := sent + (chunkPackets + [[TAG_COMMIT]]);
      transmitted := transmitted + pageOffset;
    }
    SendPacketsWhole(raw, pageSize, crc);
    sent := sent + [FinalizePacket(crc)];
  }

  /** The loop of `send_data` over all the pages covers the whole plan and
      the whole image. */
  lemma SendPacketsWhole(raw: seq<byte>, pageSize: nat, crc: uint16)
    requires 0 < pageSize < 0x1_0000
    ensures var count := CeilDiv(|raw|, pageSize);
      && SendPackets(raw, pageSize, crc)
           == [[TAG_ERASE]] + Flatten(PagePlan(raw, pageSize)[..count]) + [FinalizePacket(crc)]
      && |Flatten(Slices(raw, pageSize)[..count])| == |raw|
  {
    var pages := Slices(raw, pageSize);
    assert PagePlan(raw, pageSize)[..|pages|] == PagePlan(raw, pageSize);
    assert pages[..|pages|] == pages;
    FlattenSlices(raw, pageSize);
  }

  /** The inner loop of `send_data` over one page: 'B' packets with the
      running `page_offset`, which ends at the page's length. */
  method SendChunks(page: seq<byte>) returns (sent: seq<seq<byte>>, pageOffset: nat)
    requires |page| < 0x1_0000
    ensures sent == ChunkPackets(page)
    ensures pageOffset == |page|
  {
    sent := [];
    pageOffset := 0;
    var chunks := Slices(page, CHUNK_SIZE);
    for k := 0 to |chunks|
      invariant pageOffset == |Flatten(chunks[..k])|
      invariant sent == ChunkPackets(page)[..k]
    {
      SlicesPrefixLength(page, CHUNK_SIZE, k);
      SliceStart(|page|, CHUNK_SIZE, k);
      sent := sent + [DataPacket(pageOffset, chunks[k])];
      pageOffset := pageOffset + |chunks[k]|;
      FlattenPrefixSnoc(chunks, k + 1);
      TakeSnoc(ChunkPackets(page), k + 1);
    }
    assert chunks[..|chunks|] == chunks;
    FlattenSlices(page, CHUNK_SIZE);
    assert ChunkPackets(page)[..|chunks|] == ChunkPackets(page);
  }

  // ---------------------------------------------------------------------------
  // What the packet sequence guarantees.

  /** A packet the radio can carry and the receiver's 'B' guard accepts: at
      most one payload long, and a 'B' packet holds a non-empty chunk that ends
      inside the page. */
  predicate Deliverable(p: seq<byte>, pageSize: nat)
  {
    && 1 <= |p| <= MAX_PAYLOAD
    && (p[0] == TAG_APPEND ==> |p| > 3 && FromLE16(p[1], p[2]) + (|p| - 3) <= pageSize)
  }

  lemma ChunkPacketDeliverable(page: seq<byte>, k: nat, pageSize: nat)
    requires |page| <= pageSize < 0x1_0000 && k < CeilDiv(|page|, CHUNK_SIZE)
    ensures Deliverable(ChunkPacket(page, k), pageSize)
  {
    SliceStart(|page|, CHUNK_SIZE, k);
  }

  /** Every packet `send_data` emits fits in one radio payload, and every 'B'
      packet's chunk ends inside its page, so the receiver's overflow test
      never rejects the uploader's traffic. */
  lemma {:induction false} SentPacketsDeliverable(raw: seq<byte>, pageSize: nat, crc: uint16)
    requires 0 < pageSize < 0x1_0000
    ensures forall i :: 0 <= i < |SendPackets(raw, pageSize, crc)| ==>
      Deliverable(SendPackets(raw, pageSize, crc)[i], pageSize)
  {
    var plan := PagePlan(raw, pageSize);
    var pages := Slices(raw, pageSize);
    forall j, i | 0 <= j < |plan| && 0 <= i < |plan[j]|
      ensures Deliverable(plan[j][i], pageSize)
    {
      if i < |plan[j]| - 1 {
        ChunkPacketDeliverable(pages[j], i, pageSize);
      }
    }
    FlattenForall(plan, p => Deliverable(p, pageSize));
  }

  /** The data a packet puts into the page buffer: the chunk of a 'B' packet. */
  function Payload(p: seq<byte>): seq<byte>
  {
    if |p| >= 3 && p[0] == TAG_APPEND then p[3..] else []
  }

  /** The chunks of all packets, concatenated in order. */
  function Payloads(pkts: seq<seq<byte>>): seq<byte>
  {
    if pkts == [] then [] else Payloads(pkts[..|pkts| - 1]) + Payload(pkts[|pkts| - 1])
  }

  /** The number of 'm' packets. */
  function Commits(pkts: seq<seq<byte>>): nat
  {
    if pkts == [] then 0
    else Commits(pkts[..|pkts| - 1]) + if pkts[|pkts| - 1] == [TAG_COMMIT] then 1 else 0
  }

  lemma {:induction false} PayloadsAppend(a: seq<seq<byte>>, b: seq<seq<byte>>)
    ensures Payloads(a + b) == Payloads(a) + Payloads(b)
    decreases |b|
  {
    if b == [] {
      assert a + b == a;
    } else {
      var b' := b[..|b| - 1];
      var last := b[|b| - 1];
      assert (a + b)[..|a + b| - 1] == a + b';
      assert (a + b)[|a + b| - 1] == last;
      PayloadsAppend(a, b');
      calc {
        Payloads(a + b);
        Payloads(a + b') + Payload(last);
        Payloads(a) + Payloads(b') + Payload(last);
        Payloads(a) + (Payloads(b') + Payload(last));
      }
    }
  }

  lemma {:induction false} CommitsAppend(a: seq<seq<byte>>, b: seq<seq<byte>>)
    ensures Commits(a + b) == Commits(a) + Commits(b)
    decreases |b|
  {
    if b == [] {
      assert a + b == a;
    } else {
      var b' := b[..|b| - 1];
      assert (a + b)[..|a + b| - 1] == a + b';
      assert (a + b)[|a + b| - 1] == b[|b| - 1];
      CommitsAppend(a, b');
    }
  }

  lemma Single(p: seq<byte>)
    ensures Payloads([p]) == Payload(p)
    ensures Commits([p]) == if p == [TAG_COMMIT] then 1 else 0
  {
    assert [p][..0] == [];
  }

  /** The first `k` 'B' packets of a page carry its first `k` chunks and no commit. */
  lemma {:induction false} ChunkPayloadsPrefix(page: seq<byte>, k: nat)
    requires |page| < 0x1_0000 && k <= CeilDiv(|page|, CHUNK_SIZE)
    ensures Payloads(ChunkPackets(page)[..k]) == Flatten(Slices(page, CHUNK_SIZE)[..k])
    ensures Commits(ChunkPackets(page)[..k]) == 0
  {
    var pkts := ChunkPackets(page);
    var chunks := Slices(page, CHUNK_SIZE);
    if k == 0 {
      assert pkts[..0] == [] && chunks[..0] == [];
    } else {
      ChunkPayloadsPrefix(page, k - 1);
      var init := pkts[..k - 1];
      var last := pkts[k - 1];
      assert pkts[..k] == init + [last];
      assert Payload(last) == chunks[k - 1] && Commits([last]) == 0 by {
        Single(last);
      }
      assert Payloads(init + [last]) == Payloads(init) + chunks[k - 1] by {
        PayloadsAppend(init, [last]);
        Single(last);
      }
      assert Commits(init + [last]) == 0 by {
        CommitsAppend(init, [last]);
      }
      FlattenPrefixSnoc(chunks, k);
    }
  }

  /** A page's packets carry the page and one commit. */
  lemma PagePayloads(page: seq<byte>)
    requires |page| < 0x1_0000
    ensures Payloads(PagePackets(page)) == page
    ensures Commits(PagePackets(page)) == 1
  {
    var pkts := ChunkPackets(page);
    ChunkPayloadsPrefix(page, |pkts|);
    assert pkts[..|pkts|] == pkts;
    assert Slices(page, CHUNK_SIZE)[..|pkts|] == Slices(page, CHUNK_SIZE);
    FlattenSlices(page, CHUNK_SIZE);
    PayloadsAppend(pkts, [[TAG_COMMIT]]);
    CommitsAppend(pkts, [[TAG_COMMIT]]);
    Single([TAG_COMMIT]);
  }

  /** The first `j` pages' packets carry the first `j` pages and `j` commits. */
  lemma {:induction false} PlanPayloadsPrefix(raw: seq<byte>, pageSize: nat, j: nat)
    requires 0 < pageSize < 0x1_0000 && j <= CeilDiv(|raw|, pageSize)
    ensures Payloads(Flatten(PagePlan(raw, pageSize)[..j])) == Flatten(Slices(raw, pageSize)[..j])
    ensures Commits(Flatten(PagePlan(raw, pageSize)[..j])) == j
  {
    var plan := PagePlan(raw, pageSize);
    var pages := Slices(raw, pageSize);
    if j == 0 {
      assert plan[..0] == [] && pages[..0] == [];
    } else {
      PlanPayloadsPrefix(raw, pageSize, j - 1);
      var before := Flatten(plan[..j - 1]);
      FlattenPrefixSnoc(plan, j);
      FlattenPrefixSnoc(pages, j);
      assert Payloads(plan[j - 1]) == pages[j - 1] && Commits(plan[j - 1]) == 1 by {
        PagePayloads(pages[j - 1]);
      }
      assert Payloads(before + plan[j - 1]) == Payloads(before) + Payloads(plan[j - 1]) by {
        PayloadsAppend(before, plan[j - 1]);
      }
      assert Commits(before + plan[j - 1]) == Commits(before) + Commits(plan[j - 1]) by {
        CommitsAppend(before, plan[j - 1]);
      }
    }
  }

  /** The chunks of all 'B' packets, in the order sent, are the image; and
      exactly one 'm' is sent per page, `ceil(len(raw) / page_size)` in all. */
  lemma SentPayloads(raw: seq<byte>, pageSize: nat, crc: uint16)
    requires 0 < pageSize < 0x1_0000
    ensures Payloads(SendPackets(raw, pageSize, crc)) == raw
    ensures Commits(SendPackets(raw, pageSize, crc)) == CeilDiv(|raw|, pageSize)
  {
    var plan := PagePlan(raw, pageSize);
    var body := Flatten(plan);
    assert Payloads(body) == raw && Commits(body) == CeilDiv(|raw|, pageSize) by {
      PlanPayloadsPrefix(raw, pageSize, |plan|);
      assert plan[..|plan|] == plan;
      assert Slices(raw, pageSize)[..|plan|] == Slices(raw, pageSize);
      FlattenSlices(raw, pageSize);
    }
    var e: seq<seq<byte>> := [[TAG_ERASE]];
    var w: seq<seq<byte>> := [FinalizePacket(crc)];
    assert SendPackets(raw, pageSize, crc) == e + body + w;
    assert Payloads(e) == [] && Commits(e) == 0 by {
      Single([TAG_ERASE]);
    }
    assert Payloads(w) == [] && Commits(w) == 0 by {
      Single(FinalizePacket(crc));
    }
    var eb := e + body;
    assert Payloads(eb) == raw by {
      PayloadsAppend(e, body);
      assert [] + raw == raw;
    }
    assert Payloads(eb + w) == raw by {
      PayloadsAppend(eb, w);
      assert raw + [] == raw;
    }
    assert Commits(eb) == CeilDiv(|raw|, pageSize) by {
      CommitsAppend(e, body);
    }
    assert Commits(eb + w) == CeilDiv(|raw|, pageSize) by {
      CommitsAppend(eb, w);
    }
  }


  // ---------------------------------------------------------------------------
  // `get_device_info`: the identity record.

  /** An entry of `get_part_config`'s table. */
  datatype Part = Part(deviceId: seq<byte>, appSectionSize: nat, pageSize: nat)

  /** `get_part_config`: the two supported parts; any other name is a lookup
      error. */
  function PartConfig(partno: string): (r: Option<Part>)
    ensures r.Some? <==> partno == "atxmega32a4u" || partno == "atxmega128a4u"
    ensures r.Some? ==> |r.value.deviceId| == 3 && r.value.pageSize == 256
    ensures r.Some? ==> (r.value.appSectionSize / 2) % r.value.pageSize == 0
  {
    if partno == "atxmega32a4u" then Some(Part([0x41, 0x95, 0x1E], 32768, 256))
    else if partno == "atxmega128a4u" then Some(Part([0x46, 0x97, 0x1E], 131072, 256))
    else None
  }

  /** What the uploader learns from the board: its page size and the size of
      the image region, `pages * page_size`. */
  datatype DeviceConfig = DeviceConfig(pageSize: nat, appSize: nat)

  datatype InfoError = WrongLength | Unpack | WrongMessageId | Mismatch | NoContact

  /** The reply of `get_device_info` to one "R(len,pipe):data" line: the
      reported length must be 8, the data must unpack as `!cBBBHH`, the tag
      must be 's', and the signature, page size and half the application
      section must match the part. */
  function DecodeDeviceInfo(part: Part, pktLen: int, data: seq<byte>): (r: Result<DeviceConfig, InfoError>)
    ensures pktLen != 8 ==> r == Err(WrongLength)
    ensures pktLen == 8 && |data| != 8 ==> r == Err(Unpack)
    ensures pktLen == 8 && |data| == 8 && data[0] != TAG_INFO ==> r == Err(WrongMessageId)
    ensures r.Ok? <==>
      && pktLen == 8 && |data| == 8 && data[0] == TAG_INFO
      && data[1..4] == part.deviceId
      && FromBE16(data[4], data[5]) == part.pageSize
      && FromBE16(data[6], data[7]) * FromBE16(data[4], data[5]) == part.appSectionSize / 2
    ensures r.Ok? ==> r.value == DeviceConfig(FromBE16(data[4], data[5]), FromBE16(data[6], data[7]) * FromBE16(data[4], data[5]))
  {
    if pktLen != 8 then Err(WrongLength)
    else if |data| != 8 then Err(Unpack)
    else
      var pageSize := FromBE16(data[4], data[5]);
      var appSize := FromBE16(data[6], data[7]) * pageSize;
      if data[0] != TAG_INFO then Err(WrongMessageId)
      else if data[1..4] != part.deviceId || part.appSectionSize / 2 != appSize || part.pageSize != pageSize
      then Err(Mismatch)
      else Ok(DeviceConfig(pageSize, appSize))
  }

  /** A line from the bridge: a received packet "R(len,pipe):data", or
      anything else (a timeout reads as an empty line). */
  datatype Line = Other | Report(pktLen: int, data: seq<byte>)

  /** The index of the first report, or `|lines|` when there is none. */
  function FirstReport(lines: seq<Line>): (r: nat)
    ensures r <= |lines|
    ensures forall i :: 0 <= i < r ==> lines[i].Other?
    ensures r < |lines| ==> lines[r].Report?
  {
    if lines == [] || lines[0].Report? then 0 else 1 + FirstReport(lines[1..])
  }

  /** The outcome of `get_device_info` over the lines it reads: the first
      report decides, and with no report the board is unreachable. */
  function Contact(part: Part, lines: seq<Line>): Result<DeviceConfig, InfoError>
  {
    var i := FirstReport(lines);
    if i == |lines| then Err(NoContact) else DecodeDeviceInfo(part, lines[i].pktLen, lines[i].data)
  }

  /** `get_device_info`: ten 's' queries, each followed by three reads. The
      first report ends the loop, whether it decodes or raises. */
  method GetDeviceInfo(part: Part, lines: seq<Line>) returns (r: Result<DeviceConfig, InfoError>, queries: nat)
    requires |lines| == 30
    ensures r == Contact(part, lines)
    ensures queries == if FirstReport(lines) < 30 then FirstReport(lines) / 3 + 1 else 10
  {
    queries := 0;
    for sendCount := 0 to 10
      invariant queries == sendCount
      invariant forall i :: 0 <= i < 3 * sendCount ==> lines[i].Other?
    {
      queries := queries + 1;
      for receiveCount := 0 to 3
        invariant forall i :: 0 <= i < 3 * sendCount + receiveCount ==> lines[i].Other?
      {
        var line := lines[3 * sendCount + receiveCount];
        if line.Report? {
          assert FirstReport(lines) == 3 * sendCount + receiveCount;
          r := DecodeDeviceInfo(part, line.pktLen, line.data);
          return;
        }
      }
    }
    r := Err(NoContact);
  }

  // ---------------------------------------------------------------------------
  // `set_address`: colon-separated hex.

  /** The bridge's command bytes: 'A' sets the radio address, 'W' writes a packet. */
  const BRIDGE_SET_ADDRESS: byte := 0x41
  const BRIDGE_WRITE: byte := 0x57

  /** The uploader's default addresses. */
  const DEFAULT_BOOT_ADDRESS: string := "3e:3e:3e:3e:3e"
  const DEFAULT_INFO_ADDRESS: string := "3e:3e:3e:3e:24"

  /** `str.split(':')`. */
  function Split(s: string): (r: seq<string>)
    ensures |r| >= 1
  {
    if s == [] then [[]]
    else
      var rest := Split(s[1..]);
      if s[0] == ':' then [[]] + rest else [[s[0]] + rest[0]] + rest[1..]
  }

  /** A piece without ':' ends at the first ':'. */
  lemma {:induction false} SplitAtColon(x: string, y: string)
    requires forall i :: 0 <= i < |x| ==> x[i] != ':'
    ensures Split(x + [':'] + y) == [x] + Split(y)
  {
    if x == [] {
      assert ([':'] + y)[1..] == y;
    } else {
      assert (x + [':'] + y)[1..] == x[1..] + [':'] + y;
      SplitAtColon(x[1..], y);
      assert [x[0]] + x[1..] == x;
    }
  }

  lemma {:induction false} SplitNoColon(x: string)
    requires forall i :: 0 <= i < |x| ==> x[i] != ':'
    ensures Split(x) == [x]
  {
    if x != [] {
      SplitNoColon(x[1..]);
      assert [x[0]] + x[1..] == x;
    }
  }

  predicate IsHexDigit(c: char)
  {
    '0' <= c <= '9' || 'a' <= c <= 'f' || 'A' <= c <= 'F'
  }

  function DigitValue(c: char): (r: nat)
    requires IsHexDigit(c)
    ensures r < 16
  {
    if '0' <= c <= '9' then c as int - '0' as int
    else if 'a' <= c <= 'f' then c as int - 'a' as int + 10
    else c as int - 'A' as int + 10
  }

  /** `int(s, 16)` on a non-empty string of hex digits. */
  function HexValue(s: string): (r: Option<nat>)
    ensures r.Some? <==> s != [] && forall i :: 0 <= i < |s| ==> IsHexDigit(s[i])
  {
    if s == [] || !IsHexDigit(s[|s| - 1]) then None
    else if |s| == 1 then Some(DigitValue(s[0]))
    else match HexValue(s[..|s| - 1])
      case None => None
      case Some(v) => Some(16 * v + DigitValue(s[|s| - 1]))
  }

  /** `[int(b, 16) for b in parts]`: the first part that does not parse fails
      the whole list. */
  function HexValues(parts: seq<string>): (r: Option<seq<nat>>)
    ensures r.Some? <==> forall i :: 0 <= i < |parts| ==> HexValue(parts[i]).Some?
    ensures r.Some? ==> (|r.value| == |parts| &&
      forall i :: 0 <= i < |parts| ==> r.value[i] == HexValue(parts[i]).value)
  {
    if parts == [] then Some([])
    else match (HexValues(parts[..|parts| - 1]), HexValue(parts[|parts| - 1]))
      case (Some(vs), Some(v)) => Some(vs + [v])
      case _ => None
  }

  datatype AddressError = NotHex | WrongCount | OutOfRange

  /** `set_address`: the 'A' command with the five address bytes. Parsing
      fails first, then `struct.pack('B' * 5, ...)` checks the count, then each
      value's range. */
  function SetAddressCommand(text: string): (r: Result<seq<byte>, AddressError>)
    ensures r.Ok? <==> (|Split(text)| == 5 &&
      forall i :: 0 <= i < 5 ==> HexValue(Split(text)[i]).Some? && HexValue(Split(text)[i]).value < 256)
    ensures r.Ok? ==> (|r.value| == 6 && r.value[0] == BRIDGE_SET_ADDRESS &&
      forall i :: 0 <= i < 5 ==> r.value[i + 1] == HexValue(Split(text)[i]).value)
  {
    match HexValues(Split(text))
    case None => Err(NotHex)
    case Some(values) =>
      if |values| != 5 then Err(WrongCount)
      else if exists i :: 0 <= i < 5 && values[i] > 255 then Err(OutOfRange)
      else Ok([BRIDGE_SET_ADDRESS] + seq(5, i requires 0 <= i < 5 => values[i] as byte))
  }

  /** A digit below 16 in lower-case hex. */
  function HexChar(d: nat): (c: char)
    requires d < 16
    ensures IsHexDigit(c) && DigitValue(c) == d && c != ':'
  {
    "0123456789abcdef"[d]
  }

  /** A byte as two lower-case hex digits. */
  function HexByte(b: byte): (r: string)
    ensures |r| == 2 && HexValue(r) == Some(b)
    ensures forall i :: 0 <= i < |r| ==> r[i] != ':'
  {
    var s := [HexChar(b / 16), HexChar(b % 16)];
    assert s[..1] == [HexChar(b / 16)];
    s
  }

  /** `':'.join(fields)`. */
  function Join(fields: seq<string>): string
    requires |fields| >= 1
  {
    if |fields| == 1 then fields[0] else fields[0] + [':'] + Join(fields[1..])
  }

  /** Joining fields without ':' and splitting again gives the fields back. */
  lemma {:induction false} SplitJoin(fields: seq<string>)
    requires |fields| >= 1
    requires forall j, i :: 0 <= j < |fields| && 0 <= i < |fields[j]| ==> fields[j][i] != ':'
    ensures Split(Join(fields)) == fields
  {
    if |fields| == 1 {
      SplitNoColon(fields[0]);
    } else {
      SplitJoin(fields[1..]);
      SplitAtColon(fields[0], Join(fields[1..]));
      assert [fields[0]] + fields[1..] == fields;
    }
  }

  /** An address in the form the uploader's options take it: five two-digit
      hex fields joined by ':'. */
  function FormatAddress(addr: seq<byte>): string
    requires |addr| == 5
  {
    Join([HexByte(addr[0]), HexByte(addr[1]), HexByte(addr[2]), HexByte(addr[3]), HexByte(addr[4])])
  }

  /** Every five-byte address, written in the option's format, is what
      `set_address` sends after 'A'. */
  lemma AddressRoundTrip(addr: seq<byte>)
    requires |addr| == 5
    ensures SetAddressCommand(FormatAddress(addr)) == Ok([BRIDGE_SET_ADDRESS] + addr)
  {
    var h := [HexByte(addr[0]), HexByte(addr[1]), HexByte(addr[2]), HexByte(addr[3]), HexByte(addr[4])];
    SplitJoin(h);
    CommandOfFields(FormatAddress(addr), addr);
  }

  /** Five fields that parse to the address bytes give the 'A' command with
      those bytes. */
  lemma CommandOfFields(text: string, addr: seq<byte>)
    requires |addr| == 5 && |Split(text)| == 5
    requires forall i :: 0 <= i < 5 ==> HexValue(Split(text)[i]) == Some(addr[i])
    ensures SetAddressCommand(text) == Ok([BRIDGE_SET_ADDRESS] + addr)
  {
    var r := SetAddressCommand(text);
    assert r.Ok?;
    assert r.value == [BRIDGE_SET_ADDRESS] + addr by {
      forall i | 1 <= i < 6
        ensures r.value[i] == addr[i - 1]
      {
        assert r.value[(i - 1) + 1] == HexValue(Split(text)[i - 1]).value;
      }
    }
  }

  // ---------------------------------------------------------------------------
  // `send_packet`: framing for the bridge, and the retry loop.

  datatype FrameError = TooLong

  /** `b'W' + struct.pack('B', len(pkt)) + pkt`: the length must fit one byte. */
  function Frame(pkt: seq<byte>): (r: Result<seq<byte>, FrameError>)
    ensures r.Err? <==> |pkt| > 255
    ensures r.Ok? ==> |r.value| == |pkt| + 2 && r.value[0] == BRIDGE_WRITE
  {
    if |pkt| > 255 then Err(TooLong) else Ok([BRIDGE_WRITE, |pkt|] + pkt)
  }

  /** What the bridge reads back out of a framed command. */
  function Unframe(cmd: seq<byte>): Option<seq<byte>>
  {
    if |cmd| >= 2 && cmd[0] == BRIDGE_WRITE && cmd[1] == |cmd| - 2 then Some(cmd[2..]) else None
  }

  /** Framing and unframing are inverse: each frame carries exactly one
      packet and each packet has exactly one frame. */
  lemma FramingInverse(pkt: seq<byte>, cmd: seq<byte>)
    ensures Frame(pkt) == Ok(cmd) <==> Unframe(cmd) == Some(pkt)
  {
    if Unframe(cmd) == Some(pkt) {
      assert cmd == [BRIDGE_WRITE, |pkt|] + pkt;
    }
  }

  /** The index of the first acknowledged write, or `|replies|`. */
  function FirstSuccess(replies: seq<bool>): (r: nat)
    ensures r <= |replies|
    ensures forall i :: 0 <= i < r ==> !replies[i]
    ensures r < |replies| ==> replies[r]
  {
    if replies == [] || replies[0] then 0 else 1 + FirstSuccess(replies[1..])
  }

  datatype SendOutcome = Delivered(retransmits: nat) | Unanswered | Unframeable

  /** `send_packet`: write the framed packet until the bridge answers with a
      line starting "success". `replies[i]` says whether the `i`-th non-empty
      answer was one; when the replies run out the packet is still
      unacknowledged. */
  method SendPacket(pkt: seq<byte>, replies: seq<bool>) returns (written: seq<seq<byte>>, outcome: SendOutcome)
    ensures Frame(pkt).Err? ==> outcome == Unframeable && written == []
    ensures Frame(pkt).Ok? && FirstSuccess(replies) < |replies| ==>
      && outcome == Delivered(FirstSuccess(replies))
      && written == seq(FirstSuccess(replies) + 1, _ => Frame(pkt).value)
    ensures Frame(pkt).Ok? && FirstSuccess(replies) == |replies| ==>
      outcome == Unanswered && written == seq(|replies|, _ => Frame(pkt).value)
  {
    written := [];
    if |pkt| > 255 {
      outcome := Unframeable;
      return;
    }
    var cmd := [BRIDGE_WRITE, |pkt|] + pkt;
    var retransmits := 0;
    while retransmits < |replies|
      invariant retransmits <= |replies|
      invariant forall i :: 0 <= i < retransmits ==> !replies[i]
      invariant written == seq(retransmits, _ => cmd)
    {
      written := written + [cmd];
      if replies[retransmits] {
        outcome := Delivered(retransmits);
        return;
      }
      retransmits := retransmits + 1;
    }
    outcome := Unanswered;
  }
}
