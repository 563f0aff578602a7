/** The receiver's firmware-update state machine (`process_data`): four
    command tags that fill a one-page buffer, commit it to the temporary flash
    region of the xboot bootloader, and finally check the image's CRC and
    install it. This module states each command as a function of the session
    and of what the flash backend answers; `UpdateSession` runs the same steps
    in place. */
module FirmwareUpdate {
  import opened Bytes
  import opened Protocol

  /** `SPM_PAGESIZE`: both supported parts have 256-byte flash pages. */
  const PAGE_SIZE: nat := 256

  /** `addr` is a `uint32_t`. */
  const ADDR_MODULUS: nat := 0x1_0000_0000

  /** The contents of `page_buffer`. */
  type Page = s: seq<byte> | |s| == PAGE_SIZE
    witness Erased(PAGE_SIZE)

  /** The statics of `process_data`. */
  datatype Session = Session(buffer: Page, addr: uint32, committed: bool, offset: uint16)

  /** What the node has asked of the xboot backend: the pages written to the
      temporary region since it was last erased (by address), the checksums
      `xboot_install_firmware` was called with, and how often `xboot_reset`
      ran. */
  datatype Backend = Backend(pages: map<uint32, Page>, installs: seq<uint16>, resets: nat)

  datatype Node = Node(session: Session, backend: Backend)

  /** The answers the xboot backend gives while one packet is processed:
      whether the erase, the page write and the install succeed, and the CRC
      it computes over the temporary region. Only the ones the packet's
      command asks for are consulted. */
  datatype Answers = Answers(eraseOk: bool, writeOk: bool, tempCrc: uint16, installOk: bool)

  /** The statics as the program starts: zero-initialised. */
  function Initial(): (r: Node)
    ensures r.session.addr == 0 && !r.session.committed && r.session.offset == 0
    ensures r.backend.pages == map[] && r.backend.installs == [] && r.backend.resets == 0
  {
    Node(Session(seq(PAGE_SIZE, _ => 0), 0, false, 0), Backend(map[], [], 0))
  }

  /** After `xboot_reset` the processor restarts in the bootloader: nothing of
      this program runs any more. */
  predicate Halted(n: Node)
  {
    n.backend.resets > 0
  }

  // ---------------------------------------------------------------------------
  // Buffer primitives.

  /** `memcpy(&buffer[at], chunk, |chunk|)`. */
  function Overwrite(buffer: Page, at: nat, chunk: seq<byte>): (r: Page)
    requires at + |chunk| <= PAGE_SIZE
    ensures forall i :: 0 <= i < PAGE_SIZE ==>
      r[i] == if at <= i < at + |chunk| then chunk[i - at] else buffer[i]
  {
    buffer[..at] + chunk + buffer[at + |chunk|..]
  }

  /** `memset(&buffer[from], 0xff, PAGE_SIZE - from)`, done only when `from`
      is inside the page. */
  function PadFrom(buffer: Page, from: nat): (r: Page)
    ensures forall i :: 0 <= i < PAGE_SIZE ==>
      r[i] == if i < from then buffer[i] else ERASED
  {
    if from < PAGE_SIZE then buffer[..from] + Erased(PAGE_SIZE - from) else buffer
  }

  // ---------------------------------------------------------------------------
  // The append guard: as written, and as intended.

  /** `len -= 3` on the `uint8_t` packet length: it wraps around when the
      packet is shorter than 3 bytes. */
  function AppendLengthAsWritten(len: byte): (n: byte)
    ensures len >= 3 ==> n == len - 3
    ensures len < 3 ==> n == len + 253
  {
    (len - 3) % 256
  }

  /** The overflow test `buffer_offset + len > SPM_PAGESIZE`, on the wrapped
      length. */
  predicate AppendAcceptedAsWritten(len: byte, offset: uint16)
  {
    offset + AppendLengthAsWritten(len) <= PAGE_SIZE
  }

  /** As written, a 'B' packet of one or two bytes passes the guard when the
      offset read from it is small, and the copy then reads 253 bytes more
      than the packet holds. */
  lemma AppendGuardAsWrittenOverreads(len: byte, offset: uint16)
    requires 1 <= len < 3
    ensures AppendAcceptedAsWritten(len, offset) <==> offset <= 3 - len
    ensures AppendAcceptedAsWritten(len, offset) ==> 3 + AppendLengthAsWritten(len) == len + 256
  {
  }

  /** The guard as intended: a packet too short to carry an offset is
      rejected like a short 'w', and the payload must fit in the page. */
  predicate AppendAccepted(len: nat, offset: uint16)
  {
    len >= 3 && offset + (len - 3) <= PAGE_SIZE
  }

  /** The intended guard agrees with the written one on every packet long
      enough to carry an offset, and accepts only copies that stay inside both
      the packet and the page. */
  lemma AppendGuardIntended(len: byte, offset: uint16)
    ensures len >= 3 ==> (AppendAccepted(len, offset) <==> AppendAcceptedAsWritten(len, offset))
    ensures AppendAccepted(len, offset) ==>
      3 + AppendLengthAsWritten(len) <= len && offset + AppendLengthAsWritten(len) <= PAGE_SIZE
  {
  }

  // ---------------------------------------------------------------------------
  // The four commands.

  /** 'B': copy the payload into the page buffer at the little-endian offset
      from bytes 1 and 2. The offset is stored before the overflow test, so a
      rejected packet still moves `buffer_offset`. */
  function Append(n: Node, data: seq<byte>): (r: Node)
    requires 1 <= |data| < 256
    ensures |data| < 3 ==> r == n
    ensures |data| >= 3 && !AppendAccepted(|data|, FromLE16(data[1], data[2])) ==>
      r == n.(session := n.session.(offset := FromLE16(data[1], data[2])))
    ensures |data| >= 3 && AppendAccepted(|data|, FromLE16(data[1], data[2])) ==>
      var offset := FromLE16(data[1], data[2]);
      && (forall i :: 0 <= i < PAGE_SIZE ==>
            r.session.buffer[i] ==
              if offset <= i < offset + |data| - 3 then data[3 + i - offset] else n.session.buffer[i])
      && r.session.offset == offset + |data| - 3
      && !r.session.committed
      && r.session.addr == n.session.addr
      && r.backend == n.backend
  {
    if |data| < 3 then n
    else
      var offset := FromLE16(data[1], data[2]);
      var s := n.session.(offset := offset);
      if !AppendAccepted(|data|, offset) then n.(session := s)
      else
        n.(session := s.(buffer := Overwrite(s.buffer, offset, data[3..]),
                         committed := false,
                         offset := offset + |data| - 3))
  }

  /** 'B' as written. The code reads the offset and the chunk from the packet's
      address on, whatever lies there: `following` is the memory after the
      packet, long enough for the longest wrapped copy. The length is the
      wrapped `len - 3`. */
  function AppendAsWritten(n: Node, data: seq<byte>, following: seq<byte>): (r: Node)
    requires 1 <= |data| < 256 && |following| >= 256
    ensures r.backend == n.backend && r.session.addr == n.session.addr
    ensures var memory := data + following;
      var offset := FromLE16(memory[1], memory[2]);
      var len := AppendLengthAsWritten(|data|);
      && (offset + len > PAGE_SIZE ==> r == n.(session := n.session.(offset := offset)))
      && (offset + len <= PAGE_SIZE ==>
            && r.session.offset == offset + len && !r.session.committed
            && forall i :: 0 <= i < PAGE_SIZE ==>
                 r.session.buffer[i] ==
                   if offset <= i < offset + len then memory[3 + i - offset] else n.session.buffer[i])
  {
    var memory := data + following;
    var len := AppendLengthAsWritten(|data|);
    var offset := FromLE16(memory[1], memory[2]);
    var s := n.session.(offset := offset);
    if offset + len > PAGE_SIZE then n.(session := s)
    else
      n.(session := s.(buffer := Overwrite(s.buffer, offset, memory[3..3 + len]),
                       committed := false,
                       offset := offset + len))
  }

  /** On every packet long enough to carry an offset, the code as written and
      the corrected `Append` agree, whatever follows the packet in memory. */
  lemma AppendAsWrittenAgrees(n: Node, data: seq<byte>, following: seq<byte>)
    requires 3 <= |data| < 256 && |following| >= 256
    ensures AppendAsWritten(n, data, following) == Append(n, data)
  {
    var memory := data + following;
    assert memory[1] == data[1] && memory[2] == data[2];
    assert memory[3..3 + (|data| - 3)] == data[3..];
  }

  /** As written, a one-byte 'B' followed in memory by two zero bytes is
      accepted: it copies 254 bytes from beyond the packet into the page
      buffer, clears the committed flag and moves the offset to 254, where
      the corrected `Append` changes nothing. */
  lemma ShortAppendAsWrittenCopies(n: Node, following: seq<byte>)
    requires |following| >= 256 && following[0] == 0 && following[1] == 0
    ensures var r := AppendAsWritten(n, [TAG_APPEND], following);
      && r.session.offset == 254 && !r.session.committed
      && r.session.buffer[..254] == following[2..256]
    ensures Append(n, [TAG_APPEND]) == n
    ensures n.session.committed || n.session.offset != 254 ==>
      AppendAsWritten(n, [TAG_APPEND], following) != Append(n, [TAG_APPEND])
  {
    var memory := [TAG_APPEND] + following;
    assert memory[1] == 0 && memory[2] == 0;
    var r := AppendAsWritten(n, [TAG_APPEND], following);
    assert r.session.buffer[..254] == following[2..256] by {
      forall i | 0 <= i < 254
        ensures r.session.buffer[i] == following[2 + i]
      {
        assert memory[3 + i] == following[2 + i];
      }
    }
  }

  /** 'e': erase the temporary region; on success start a new image. The page
      buffer keeps its bytes. */
  function Erase(n: Node, ok: bool): (r: Node)
    ensures !ok ==> r == n
    ensures ok ==> r.session == Session(n.session.buffer, 0, false, 0)
    ensures ok ==> r.backend == n.backend.(pages := map[])
  {
    if !ok then n
    else Node(n.session.(addr := 0, committed := false, offset := 0), n.backend.(pages := map[]))
  }

  /** 'm': pad the buffer from `buffer_offset` with 0xFF and write it as the
      page at `addr`. A page already committed is refused. The padding stays
      in the buffer even when the write fails. */
  function Commit(n: Node, ok: bool): (r: Node)
    ensures n.session.committed ==> r == n
    ensures !n.session.committed ==>
      && r.session.buffer == PadFrom(n.session.buffer, n.session.offset)
      && (ok ==> && r.backend == n.backend.(pages := n.backend.pages[n.session.addr := r.session.buffer])
                 && r.session.addr == (n.session.addr + PAGE_SIZE) % ADDR_MODULUS
                 && r.session.committed && r.session.offset == 0)
      && (!ok ==> r == n.(session := n.session.(buffer := r.session.buffer)))
  {
    var s := n.session;
    if s.committed then n
    else
      var page := PadFrom(s.buffer, s.offset);
      if !ok then n.(session := s.(buffer := page))
      else
        Node(s.(buffer := page, addr := (s.addr + PAGE_SIZE) % ADDR_MODULUS, committed := true, offset := 0),
             n.backend.(pages := n.backend.pages[s.addr := page]))
  }

  /** 'w': compare the backend's CRC of the temporary region with the
      little-endian target in bytes 1 and 2; on a match install with that
      target, and reset once the install succeeds. */
  function Finalize(n: Node, data: seq<byte>, a: Answers): (r: Node)
    requires 1 <= |data|
    ensures r.session == n.session && r.backend.pages == n.backend.pages
    ensures |data| < 3 || a.tempCrc != FromLE16(data[1], data[2]) ==> r == n
    ensures |data| >= 3 && a.tempCrc == FromLE16(data[1], data[2]) ==>
      && r.backend.installs == n.backend.installs + [a.tempCrc]
      && r.backend.resets == n.backend.resets + (if a.installOk then 1 else 0)
  {
    if |data| < 3 then n
    else
      var target := FromLE16(data[1], data[2]);
      if a.tempCrc != target then n
      else
        var b := n.backend.(installs := n.backend.installs + [target]);
        if !a.installOk then n.(backend := b)
        else n.(backend := b.(resets := b.resets + 1))
  }

  /** `process_data`: one packet received on the update pipe. */
  function Step(n: Node, data: seq<byte>, a: Answers): (r: Node)
    requires |data| < 256
    ensures n.session.addr % PAGE_SIZE == 0 ==> r.session.addr % PAGE_SIZE == 0
    ensures |r.backend.installs| <= |n.backend.installs| + 1
    ensures |r.backend.installs| > |n.backend.installs| ==>
      && |data| >= 3 && data[0] == TAG_FINALIZE
      && a.tempCrc == FromLE16(data[1], data[2])
      && r.backend.installs == n.backend.installs + [FromLE16(data[1], data[2])]
    ensures r.backend.resets > n.backend.resets ==>
      a.installOk && |r.backend.installs| == |n.backend.installs| + 1 && r.backend.resets == n.backend.resets + 1
    ensures r.backend.resets == n.backend.resets ==> r.backend.installs == n.backend.installs || !a.installOk
    ensures (|data| == 0 || data[0] !in {TAG_APPEND, TAG_ERASE, TAG_COMMIT, TAG_FINALIZE}) ==> r == n
  {
    if |data| < 1 then n
    else if data[0] == TAG_APPEND then Append(n, data)
    else if data[0] == TAG_ERASE then Erase(n, a.eraseOk)
    else if data[0] == TAG_COMMIT then Commit(n, a.writeOk)
    else if data[0] == TAG_FINALIZE then Finalize(n, data, a)
    else n
  }

  // ---------------------------------------------------------------------------
  // Properties over several packets.

  /** A second 'm' with no 'B' in between is refused: one page is written and
      `addr` moves by exactly one page. */
  lemma CommitTwice(n: Node, a1: Answers, a2: Answers)
    requires !n.session.committed && a1.writeOk
    ensures var r := Step(Step(n, [TAG_COMMIT], a1), [TAG_COMMIT], a2);
      && r == Step(n, [TAG_COMMIT], a1)
      && r.session.addr == (n.session.addr + PAGE_SIZE) % ADDR_MODULUS
      && r.backend.pages == n.backend.pages[n.session.addr := PadFrom(n.session.buffer, n.session.offset)]
  {
  }

  /** A packet delivered a second time after it took effect changes nothing:
      the sender retransmits whenever it sees no acknowledgement, which may
      happen after a delivery. An append rewrites the same bytes at the same
      offset; a second commit is refused; a second erase repeats the first. */
  lemma RetransmitIsHarmless(n: Node, data: seq<byte>, a1: Answers, a2: Answers)
    requires |data| < 256
    requires |data| >= 1 && data[0] in {TAG_APPEND, TAG_ERASE, TAG_COMMIT}
    requires data[0] == TAG_ERASE ==> a1.eraseOk && a2.eraseOk
    requires data[0] == TAG_COMMIT ==> a1.writeOk
    ensures Step(Step(n, data, a1), data, a2) == Step(n, data, a1)
  {
    if data[0] == TAG_APPEND && |data| >= 3 {
      var r := Step(n, data, a1);
      var offset := FromLE16(data[1], data[2]);
      if AppendAccepted(|data|, offset) {
        assert Step(r, data, a2).session.buffer == r.session.buffer;
      }
    }
  }

  /** Erase brings the session back to its start whatever came before, apart
      from the bytes left in the page buffer. */
  lemma EraseResets(n: Node, data: seq<byte>, a: Answers)
    requires 1 <= |data| < 256 && data[0] == TAG_ERASE && a.eraseOk
    ensures var r := Step(n, data, a);
      r.session.addr == 0 && !r.session.committed && r.session.offset == 0 && r.backend.pages == map[]
  {
  }
}
