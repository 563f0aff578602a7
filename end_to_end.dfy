/** The two halves together: the packets the uploader sends, run through the
    receiver's `process_data`, leave the image padded with 0xFF in the
    temporary flash region, and the CRC the uploader sends is the one the
    region has. The identity record and the radio addresses agree as well. */
module EndToEnd {
  import opened Bytes
  import opened Protocol
  import opened Crc16
  import opened FirmwareUpdate
  import opened ReceiverApp
  import opened Upload

  /** `process_data` over the packets in order, every call meeting the same
      backend answers. The radio carries at most `MAX_PAYLOAD` bytes, so a
      longer packet never reaches the receiver and changes nothing. */
  function Feed(n: Node, pkts: seq<seq<byte>>, a: Answers): Node
  {
    if pkts == [] then n
    else
      var m := Feed(n, pkts[..|pkts| - 1], a);
      var p := pkts[|pkts| - 1];
      if |p| <= MAX_PAYLOAD then Step(m, p, a) else m
  }

  /** Feeding `x + y` continues from where feeding `x` stopped. */
  lemma {:induction false} FeedAppend(n: Node, x: seq<seq<byte>>, y: seq<seq<byte>>, a: Answers)
    ensures Feed(n, x + y, a) == Feed(Feed(n, x, a), y, a)
    decreases |y|
  {
    if y == [] {
      assert x + y == x;
    } else {
      var y' := y[..|y| - 1];
      assert (x + y)[..|x + y| - 1] == x + y';
      assert (x + y)[|x + y| - 1] == y[|y| - 1];
      FeedAppend(n, x, y', a);
    }
  }

  /** Feeding one more packet the radio can carry takes one more step. */
  lemma FeedSnoc(n: Node, x: seq<seq<byte>>, p: seq<byte>, a: Answers)
    requires |p| <= MAX_PAYLOAD
    ensures Feed(n, x + [p], a) == Step(Feed(n, x, a), p, a)
  {
    assert (x + [p])[..|x|] == x;
  }

  /** Feeding `[p] + y` is one step on `p`, then feeding `y`. */
  lemma FeedCons(n: Node, p: seq<byte>, y: seq<seq<byte>>, a: Answers)
    requires |p| <= MAX_PAYLOAD
    ensures Feed(n, [p] + y, a) == Feed(Step(n, p, a), y, a)
  {
    FeedAppend(n, [p], y, a);
    FeedSnoc(n, [], p, a);
    assert [] + [p] == [p];
  }

  // ---------------------------------------------------------------------------
  // The dispatcher delivers pipe-1 traffic to `process_data`.

  /** The payloads of the packets, in queue order. */
  function PipeData(pkts: seq<Packet>): (r: seq<seq<byte>>)
    ensures |r| == |pkts|
    ensures forall i :: 0 <= i < |pkts| ==> r[i] == pkts[i].data
  {
    if pkts == [] then [] else [pkts[0].data] + PipeData(pkts[1..])
  }

  /** Only a 'w' can reset the processor: any other packet leaves the reset
      count where it was. */
  lemma OnlyFinalizeResets(n: Node, data: seq<byte>, a: Answers)
    requires |data| <= MAX_PAYLOAD
    requires |data| == 0 || data[0] != TAG_FINALIZE
    ensures Step(n, data, a).backend.resets == n.backend.resets
  {
  }

  /** The queue the dispatcher delivers to `process_data` in `DrainIsFeed`:
      every packet is on the update pipe and meets the answers `a`, and no
      packet before the last is a 'w'. */
  predicate UpdateTraffic(pkts: seq<Packet>, answers: seq<Answers>, a: Answers)
  {
    && |answers| >= |pkts|
    && (forall i :: 0 <= i < |pkts| ==> answers[i] == a && pkts[i].pipe == UPDATE_PIPE)
    && (forall i :: 0 <= i < |pkts| - 1 ==> pkts[i].data == [] || pkts[i].data[0] != TAG_FINALIZE)
  }

  /** Taking the first packet off such a queue leaves such a queue, and the
      packet taken is not a 'w' when more follow. */
  lemma UpdateTrafficTail(pkts: seq<Packet>, answers: seq<Answers>, a: Answers)
    requires |pkts| >= 2 && UpdateTraffic(pkts, answers, a)
    ensures UpdateTraffic(pkts[1..], answers[1..], a)
    ensures pkts[0].data == [] || pkts[0].data[0] != TAG_FINALIZE
  {
    assert 0 < |pkts| - 1;
    forall i | 0 <= i < |pkts| - 1
      ensures answers[1..][i] == a && pkts[1..][i].pipe == UPDATE_PIPE
    {
      assert answers[1..][i] == answers[i + 1] && pkts[1..][i] == pkts[i + 1];
    }
    forall i | 0 <= i < |pkts| - 2
      ensures pkts[1..][i].data == [] || pkts[1..][i].data[0] != TAG_FINALIZE
    {
      assert pkts[1..][i] == pkts[i + 1];
    }
  }

  /** Feeding the payloads of a queue is one step on the first payload, then
      feeding the payloads of the rest. */
  lemma FeedPipeCons(n: Node, pkts: seq<Packet>, a: Answers)
    requires pkts != []
    ensures Feed(n, PipeData(pkts), a) == Feed(Step(n, pkts[0].data, a), PipeData(pkts[1..]), a)
  {
    assert PipeData(pkts) == [pkts[0].data] + PipeData(pkts[1..]);
    FeedCons(n, pkts[0].data, PipeData(pkts[1..]), a);
  }

  /** While the processor has not been reset, draining a queue delivers its
      first packet and drains the rest. */
  lemma DrainCons(r: Receiving, id: Identity, pkts: seq<Packet>, answers: seq<Answers>)
    requires |answers| >= |pkts| && pkts != [] && !Halted(r.node)
    ensures Drain(r, id, pkts, answers) == Drain(Deliver(r, id, pkts[0], answers[0]), id, pkts[1..], answers[1..])
  {
  }

  /** `process_incoming_data` on a queue of update-pipe packets, each meeting
      the answers `a`, is `Feed` over their payloads when the processor has
      not been reset while packets remain and no packet before the last is a
      'w': the whole queue is taken and the identity record is not touched. */
  lemma {:induction false} DrainFeeds(r: Receiving, id: Identity, pkts: seq<Packet>, answers: seq<Answers>, a: Answers)
    requires pkts != [] ==> !Halted(r.node)
    requires UpdateTraffic(pkts, answers, a)
    ensures var d := Drain(r, id, pkts, answers);
      && d.1 == []
      && d.0.node == Feed(r.node, PipeData(pkts), a)
      && d.0.acks == r.acks
    decreases |pkts|
  {
    if pkts == [] {
      assert PipeData(pkts) == [];
    } else {
      var r' := Deliver(r, id, pkts[0], answers[0]);
      assert r'.node == Step(r.node, pkts[0].data, a) && r'.acks == r.acks;
      DrainCons(r, id, pkts, answers);
      FeedPipeCons(r.node, pkts, a);
      if |pkts| > 1 {
        UpdateTrafficTail(pkts, answers, a);
        OnlyFinalizeResets(r.node, pkts[0].data, a);
      } else {
        assert pkts[1..] == [];
      }
      DrainFeeds(r', id, pkts[1..], answers[1..], a);
    }
  }

  /** The same queue, with the counter: it grows by the number of packets,
      modulo 256. */
  lemma {:induction false} DrainIsFeed(r: Receiving, id: Identity, pkts: seq<Packet>, answers: seq<Answers>, a: Answers)
    requires pkts != [] ==> !Halted(r.node)
    requires UpdateTraffic(pkts, answers, a)
    ensures var d := Drain(r, id, pkts, answers);
      && d.1 == []
      && d.0.node == Feed(r.node, PipeData(pkts), a)
      && d.0.acks == r.acks
      && d.0.count == (r.count + |pkts|) % 256
  {
    DrainFeeds(r, id, pkts, answers, a);
    DrainCounts(r, id, pkts, answers);
  }

  // ---------------------------------------------------------------------------
  // One page.

  /** A page as it lands in flash: its bytes, then 0xFF to the end. */
  function PageImage(page: seq<byte>): (r: Page)
    requires |page| <= PAGE_SIZE
    ensures forall i :: 0 <= i < PAGE_SIZE ==> r[i] == if i < |page| then page[i] else ERASED
  {
    page + Erased(PAGE_SIZE - |page|)
  }

  /** How much of a page its first `k` chunks cover. */
  function Loaded(page: seq<byte>, k: nat): nat
  {
    Min(k * CHUNK_SIZE, |page|)
  }

  /** The `k`-th 'B' packet of a page is accepted and copies its chunk right
      after the bytes the packets before it loaded. */
  lemma ChunkAppends(prev: Node, page: seq<byte>, k: nat, a: Answers)
    requires 0 < |page| <= PAGE_SIZE && k < CeilDiv(|page|, CHUNK_SIZE)
    requires prev.session.buffer[..Loaded(page, k)] == page[..Loaded(page, k)]
    ensures |ChunkPacket(page, k)| <= MAX_PAYLOAD
    ensures var m := Step(prev, ChunkPacket(page, k), a);
      && m.backend == prev.backend && m.session.addr == prev.session.addr
      && m.session.offset == Loaded(page, k + 1) && !m.session.committed
      && m.session.buffer[..Loaded(page, k + 1)] == page[..Loaded(page, k + 1)]
  {
    var p := ChunkPacket(page, k);
    var off := k * CHUNK_SIZE;
    var chunk := Slice(page, CHUNK_SIZE, k);
    assert off < |page| && off + |chunk| == Loaded(page, k + 1) && Loaded(page, k) == off by {
      SliceStart(|page|, CHUNK_SIZE, k);
      assert (k + 1) * CHUNK_SIZE == off + CHUNK_SIZE;
    }
    assert p == DataPacket(off, chunk);
    assert AppendAccepted(|p|, FromLE16(p[1], p[2]));
    var m := Append(prev, p);
    assert Step(prev, p, a) == m;
    forall i | 0 <= i < off + |chunk|
      ensures m.session.buffer[i] == page[i]
    {
      if i >= off {
        assert m.session.buffer[i] == p[3 + i - off] == chunk[i - off];
      } else {
        assert prev.session.buffer[..off][i] == page[..off][i];
      }
    }
  }

  /** The first `k` 'B' packets of a page are accepted and copy the first
      `Loaded(page, k)` bytes of the page into the page buffer. */
  lemma {:induction false} ChunksLoad(n: Node, page: seq<byte>, k: nat, a: Answers)
    requires 0 < |page| <= PAGE_SIZE && k <= CeilDiv(|page|, CHUNK_SIZE)
    ensures var m := Feed(n, ChunkPackets(page)[..k], a);
      && m.backend == n.backend && m.session.addr == n.session.addr
      && (k > 0 ==> m.session.offset == Loaded(page, k) && !m.session.committed)
      && m.session.buffer[..Loaded(page, k)] == page[..Loaded(page, k)]
  {
    var pkts := ChunkPackets(page);
    if k > 0 {
      var prefix := pkts[..k - 1];
      var p := ChunkPacket(page, k - 1);
      ChunksLoad(n, page, k - 1, a);
      ChunkAppends(Feed(n, prefix, a), page, k - 1, a);
      TakeSnoc(pkts, k);
      FeedSnoc(n, prefix, p, a);
    } else {
      assert pkts[..0] == [];
    }
  }

  /** 'm' after a whole page was loaded writes the page padded with 0xFF. */
  lemma CommitLoaded(mid: Node, page: seq<byte>, a: Answers)
    requires 0 < |page| <= PAGE_SIZE && a.writeOk
    requires mid.session.offset == |page| && !mid.session.committed
    requires mid.session.buffer[..|page|] == page
    ensures var m := Step(mid, [TAG_COMMIT], a);
      && m.session.addr == (mid.session.addr + PAGE_SIZE) % ADDR_MODULUS
      && m.session.committed && m.session.offset == 0
      && m.backend == mid.backend.(pages := mid.backend.pages[mid.session.addr := PageImage(page)])
  {
    var padded := PadFrom(mid.session.buffer, mid.session.offset);
    assert padded == PageImage(page) by {
      forall i | 0 <= i < PAGE_SIZE
        ensures padded[i] == PageImage(page)[i]
      {
        if i < |page| {
          assert mid.session.buffer[..|page|][i] == page[i];
        }
      }
    }
    assert Step(mid, [TAG_COMMIT], a) == Commit(mid, a.writeOk);
  }

  /** A page's packets write the page, padded with 0xFF, at the session's
      address, and move to the next page. */
  lemma PageLoads(n: Node, page: seq<byte>, a: Answers)
    requires 0 < |page| <= PAGE_SIZE && a.writeOk
    ensures var m := Feed(n, PagePackets(page), a);
      && m.session.addr == (n.session.addr + PAGE_SIZE) % ADDR_MODULUS
      && m.session.committed && m.session.offset == 0
      && m.backend == n.backend.(pages := n.backend.pages[n.session.addr := PageImage(page)])
  {
    var chunks := ChunkPackets(page);
    var count := |chunks|;
    ChunksLoad(n, page, count, a);
    assert chunks[..count] == chunks;
    var mid := Feed(n, chunks, a);
    assert Loaded(page, count) == |page|;
    assert page[..|page|] == page;
    FeedSnoc(n, chunks, [TAG_COMMIT], a);
    CommitLoaded(mid, page, a);
    assert PagePackets(page) == chunks + [[TAG_COMMIT]];
    var m := Feed(n, PagePackets(page), a);
    assert m == Step(mid, [TAG_COMMIT], a);
    assert mid.backend == n.backend && mid.session.addr == n.session.addr;
    assert m.session.addr == (n.session.addr + PAGE_SIZE) % ADDR_MODULUS;
    assert m.session.committed && m.session.offset == 0;
    assert m.backend == n.backend.(pages := n.backend.pages[n.session.addr := PageImage(page)]);
  }

  // ---------------------------------------------------------------------------
  // The whole image.

  /** 'e', then the packets of the first `j` pages. */
  function ImagePackets(raw: seq<byte>, j: nat): seq<seq<byte>>
    requires j <= CeilDiv(|raw|, PAGE_SIZE)
  {
    [[TAG_ERASE]] + Flatten(PagePlan(raw, PAGE_SIZE)[..j])
  }

  /** The packets of the first `j` pages are those of the first `j - 1`, then
      the `j`-th page's. */
  lemma ImagePacketsSnoc(raw: seq<byte>, j: nat)
    requires 0 < j <= CeilDiv(|raw|, PAGE_SIZE)
    ensures ImagePackets(raw, j) == ImagePackets(raw, j - 1) + PagePackets(Slices(raw, PAGE_SIZE)[j - 1])
  {
    FlattenPrefixSnoc(PagePlan(raw, PAGE_SIZE), j);
  }

  /** The pages map holds exactly the first `j` pages, each at its address. */
  ghost predicate HoldsPages(pm: map<uint32, Page>, pages: seq<seq<byte>>, j: nat)
    requires j <= |pages| && forall i :: 0 <= i < |pages| ==> |pages[i]| <= PAGE_SIZE
  {
    && (forall i :: 0 <= i < j ==> PAGE_SIZE * i in pm && pm[PAGE_SIZE * i] == PageImage(pages[i]))
    && (forall addr :: addr in pm ==> addr % PAGE_SIZE == 0 && addr / PAGE_SIZE < j)
  }

  /** Writing the `j`-th page at its address extends the pages held. */
  lemma HoldsNext(pm: map<uint32, Page>, pages: seq<seq<byte>>, j: nat)
    requires 0 < j <= |pages| <= 0xFFFF && forall i :: 0 <= i < |pages| ==> |pages[i]| <= PAGE_SIZE
    requires HoldsPages(pm, pages, j - 1)
    ensures HoldsPages(pm[PAGE_SIZE * (j - 1) := PageImage(pages[j - 1])], pages, j)
  {
  }

  /** Page `j` starts where page `j - 1` ends, without wrapping `addr`. */
  lemma NextPageAddress(addr: int, j: nat)
    requires 0 < j <= 0xFFFF && addr == PAGE_SIZE * (j - 1)
    ensures (addr + PAGE_SIZE) % ADDR_MODULUS == PAGE_SIZE * j
  {
    assert addr + PAGE_SIZE == PAGE_SIZE * j < ADDR_MODULUS;
  }

  /** 'e' and the first `j` pages' packets leave those pages written and
      nothing else, with the session at the next page's address. */
  lemma {:induction false} ImageLoads(n: Node, raw: seq<byte>, j: nat, a: Answers)
    requires a.eraseOk && a.writeOk
    requires j <= CeilDiv(|raw|, PAGE_SIZE) <= 0xFFFF
    ensures var m := Feed(n, ImagePackets(raw, j), a);
      && m.session.addr == PAGE_SIZE * j
      && m.backend.installs == n.backend.installs && m.backend.resets == n.backend.resets
      && HoldsPages(m.backend.pages, Slices(raw, PAGE_SIZE), j)
  {
    var pages := Slices(raw, PAGE_SIZE);
    if j == 0 {
      assert ImagePackets(raw, 0) == [] + [[TAG_ERASE]] by {
        assert PagePlan(raw, PAGE_SIZE)[..0] == [];
      }
      FeedSnoc(n, [], [TAG_ERASE], a);
    } else {
      ImageLoads(n, raw, j - 1, a);
      var prev := Feed(n, ImagePackets(raw, j - 1), a);
      var page := pages[j - 1];
      ImagePacketsSnoc(raw, j);
      FeedAppend(n, ImagePackets(raw, j - 1), PagePackets(page), a);
      PageLoads(prev, page, a);
      HoldsNext(prev.backend.pages, pages, j);
      var m := Feed(n, ImagePackets(raw, j), a);
      assert m == Feed(prev, PagePackets(page), a);
      assert m.session.addr == PAGE_SIZE * j by {
        NextPageAddress(prev.session.addr, j);
      }
      assert m.backend.installs == n.backend.installs && m.backend.resets == n.backend.resets;
      assert HoldsPages(m.backend.pages, pages, j);
    }
  }

  /** The temporary region as xboot reads it: each byte from the page written
      at its page's address, 0xFF where no page was written since the erase. */
  function Region(pm: map<uint32, Page>, size: nat): (r: seq<byte>)
    ensures |r| == size
  {
    seq(size, i requires 0 <= i < size =>
      var base := i - i % PAGE_SIZE;
      if base < ADDR_MODULUS && base in pm then pm[base][i % PAGE_SIZE] else ERASED)
  }

  /** With exactly the image's pages written, the region reads as the image
      padded with 0xFF, which is what the uploader's CRC covers. */
  lemma RegionIsPadded(pm: map<uint32, Page>, raw: seq<byte>, appSize: nat)
    requires |raw| <= appSize
    requires HoldsPages(pm, Slices(raw, PAGE_SIZE), CeilDiv(|raw|, PAGE_SIZE))
    ensures Region(pm, appSize) == PaddedImage(raw, appSize)
  {
    var pages := Slices(raw, PAGE_SIZE);
    var count := |pages|;
    forall i | 0 <= i < appSize
      ensures Region(pm, appSize)[i] == PaddedImage(raw, appSize)[i]
    {
      var q := i / PAGE_SIZE;
      var base: nat := i - i % PAGE_SIZE;
      assert base == PAGE_SIZE * q && base / PAGE_SIZE == q;
      if q < count {
        var slice := pages[q];
        assert base in pm && pm[base] == PageImage(slice);
        assert PAGE_SIZE * q + |slice| == Min(PAGE_SIZE * q + PAGE_SIZE, |raw|);
        if i % PAGE_SIZE < |slice| {
          assert slice[i % PAGE_SIZE] == raw[i];
        }
      } else {
        assert base !in pm;
        assert count * PAGE_SIZE >= |raw|;
      }
    }
  }

  /** The uploader's 'w' packet installs exactly when xboot's CRC is the one
      it carries, and leaves the pages alone. */
  lemma FinalizeChecks(n: Node, crc: uint16, a: Answers)
    ensures var r := Step(n, FinalizePacket(crc), a);
      && r.backend.pages == n.backend.pages
      && (a.tempCrc == crc ==>
            r.backend.installs == n.backend.installs + [crc]
            && r.backend.resets == n.backend.resets + (if a.installOk then 1 else 0))
      && (a.tempCrc != crc ==> r == n)
  {
    var w := FinalizePacket(crc);
    assert Step(n, w, a) == Finalize(n, w, a);
  }

  /** The whole upload: 'e', every page, then 'w' with `read_data`'s CRC,
      through `process_data` with a backend whose erase, writes and install
      succeed. The region then holds the image padded with 0xFF. If xboot's
      CRC of the region is the CRC-16/ARC of its bytes, the firmware is
      installed with the uploader's CRC and the node resets; an answer other
      than that CRC installs nothing. */
  lemma UploadInstallsImage(n: Node, raw: seq<byte>, appSize: nat, a: Answers)
    requires a.eraseOk && a.writeOk && a.installOk
    requires |raw| <= appSize <= 0xFFFF * PAGE_SIZE
    ensures var crc := ReadData(raw, appSize).1;
      var final := Feed(n, SendPackets(raw, PAGE_SIZE, crc), a);
      && Region(final.backend.pages, appSize) == PaddedImage(raw, appSize)
      && (a.tempCrc == Checksum(Region(final.backend.pages, appSize)) ==>
            final.backend.installs == n.backend.installs + [crc] && final.backend.resets == n.backend.resets + 1)
      && (a.tempCrc != crc ==>
            final.backend.installs == n.backend.installs && final.backend.resets == n.backend.resets)
  {
    var crc := ReadData(raw, appSize).1;
    var count := CeilDiv(|raw|, PAGE_SIZE);
    assert count <= 0xFFFF by {
      assert (|raw| + PAGE_SIZE - 1) / PAGE_SIZE <= (0xFFFF * PAGE_SIZE + PAGE_SIZE - 1) / PAGE_SIZE;
    }
    ImageLoads(n, raw, count, a);
    var body := ImagePackets(raw, count);
    var w := FinalizePacket(crc);
    assert SendPackets(raw, PAGE_SIZE, crc) == body + [w] by {
      assert PagePlan(raw, PAGE_SIZE)[..count] == PagePlan(raw, PAGE_SIZE);
    }
    var before := Feed(n, body, a);
    FeedSnoc(n, body, w, a);
    var final := Step(before, w, a);
    FinalizeChecks(before, crc, a);
    RegionIsPadded(before.backend.pages, raw, appSize);
    assert final == Feed(n, SendPackets(raw, PAGE_SIZE, crc), a);
    assert Region(final.backend.pages, appSize) == PaddedImage(raw, appSize);
    assert Checksum(PaddedImage(raw, appSize)) == crc;
  }

  // ---------------------------------------------------------------------------
  // The 'B' guard, the identity record and the addresses.

  /** Every packet of the upload fits one radio payload, and the receiver's
      overflow test accepts every 'B' packet. */
  lemma SenderTrafficAccepted(raw: seq<byte>, crc: uint16)
    ensures var pkts := SendPackets(raw, PAGE_SIZE, crc);
      forall i :: 0 <= i < |pkts| ==>
        && 1 <= |pkts[i]| <= MAX_PAYLOAD
        && (pkts[i][0] == TAG_APPEND ==>
              |pkts[i]| > 3 && AppendAccepted(|pkts[i]|, FromLE16(pkts[i][1], pkts[i][2])))
  {
    SentPacketsDeliverable(raw, PAGE_SIZE, crc);
  }

  /** `get_device_info` accepts the record `set_device_info` publishes exactly
      when the part's signature, page size and half application section match
      the board's, and then learns the board's page size and image size. */
  lemma IdentityDecodes(id: Identity, part: Part)
    ensures var r := DecodeDeviceInfo(part, 8, DeviceInfo(id));
      var pages := (id.appSize / PAGE_SIZE) % 0x1_0000;
      && (r.Ok? <==>
            && part.deviceId == [id.signature2, id.signature1, id.signature0]
            && part.pageSize == PAGE_SIZE
            && pages * PAGE_SIZE == part.appSectionSize / 2)
      && (r.Ok? ==> r.value == DeviceConfig(PAGE_SIZE, pages * PAGE_SIZE))
  {
    var info := DeviceInfo(id);
    assert info[1..4] == [id.signature2, id.signature1, id.signature0];
  }

  /** The ATxmega32A4U (signature 1E 95 41, a 16 KiB image region) is
      recognised by the uploader's part table. */
  lemma Atxmega32a4uDecodes()
    ensures PartConfig("atxmega32a4u").Some?
    ensures DecodeDeviceInfo(PartConfig("atxmega32a4u").value, 8, DeviceInfo(Identity(0x1E, 0x95, 0x41, 16384)))
      == Ok(DeviceConfig(256, 16384))
  {
    IdentityDecodes(Identity(0x1E, 0x95, 0x41, 16384), PartConfig("atxmega32a4u").value);
  }

  /** Five fields joined by ':'. */
  lemma JoinFive(a: string, b: string, c: string, d: string, e: string)
    ensures Join([a, b, c, d, e]) == a + ":" + b + ":" + c + ":" + d + ":" + e
  {
    assert Join([d, e]) == d + ":" + e by {
      assert [d, e][1..] == [e];
    }
    assert Join([c, d, e]) == c + ":" + d + ":" + e by {
      assert [c, d, e][1..] == [d, e];
    }
    assert Join([b, c, d, e]) == b + ":" + c + ":" + d + ":" + e by {
      assert [b, c, d, e][1..] == [c, d, e];
    }
    assert [a, b, c, d, e][1..] == [b, c, d, e];
  }

  /** The default boot address option is the board's boot address, written
      in the option's format. */
  lemma BootAddressText()
    ensures FormatAddress(BOOT_ADDRESS) == DEFAULT_BOOT_ADDRESS
  {
    assert HexByte(0x3E) == "3e";
    JoinFive("3e", "3e", "3e", "3e", "3e");
  }

  /** The default info address option is the board's info address, written
      in the option's format. */
  lemma InfoAddressText()
    ensures FormatAddress(INFO_ADDRESS) == DEFAULT_INFO_ADDRESS
  {
    assert HexByte(0x3E) == "3e" && HexByte(0x24) == "24";
    JoinFive("3e", "3e", "3e", "3e", "24");
  }

  /** The uploader's default addresses are the board's boot and info addresses. */
  lemma DefaultAddresses()
    ensures SetAddressCommand(DEFAULT_BOOT_ADDRESS) == Ok([BRIDGE_SET_ADDRESS] + BOOT_ADDRESS)
    ensures SetAddressCommand(DEFAULT_INFO_ADDRESS) == Ok([BRIDGE_SET_ADDRESS] + INFO_ADDRESS)
  {
    BootAddressText();
    InfoAddressText();
    AddressRoundTrip(BOOT_ADDRESS);
    AddressRoundTrip(INFO_ADDRESS);
  }
}
