/** `process_data` as the receiver runs it: the statics of the update session
    are fields updated in place, the page buffer is an array, and the xboot
    calls go to an object that records them. Each operation is proved to do
    what `FirmwareUpdate.Step` says. */
module UpdateSessions {
  import opened Bytes
  import opened Protocol
  import opened FirmwareUpdate

  /** The xboot bootloader's application interface. Its code is not part of
      this model: each call takes the answer it gives as a parameter and
      records its effect on the temporary region. */
  class Xboot {
    var pages: map<uint32, Page>
    var installs: seq<uint16>
    var resets: nat

    constructor ()
      ensures pages == map[] && installs == [] && resets == 0
    {
      pages := map[];
      installs := [];
      resets := 0;
    }

    function Model(): Backend
      reads this
    {
      Backend(pages, installs, resets)
    }

    /** `xboot_app_temp_erase`: a successful erase leaves no page written. */
    method AppTempErase(ok: bool) returns (success: bool)
      modifies this
      ensures success == ok
      ensures Model() == if ok then old(Model()).(pages := map[]) else old(Model())
    {
      if ok {
        pages := map[];
      }
      success := ok;
    }

    /** `xboot_app_temp_write_page(addr, page, 0)`. */
    method AppTempWritePage(addr: uint32, page: array<byte>, ok: bool) returns (success: bool)
      requires page.Length == PAGE_SIZE
      modifies this
      ensures success == ok
      ensures Model() == if ok then old(Model()).(pages := old(pages)[addr := page[..]]) else old(Model())
    {
      if ok {
        pages := pages[addr := page[..]];
      }
      success := ok;
    }

    /** `xboot_install_firmware(crc)`: every call is recorded, whatever its outcome. */
    method InstallFirmware(crc: uint16, ok: bool) returns (success: bool)
      modifies this
      ensures success == ok
      ensures Model() == old(Model()).(installs := old(installs) + [crc])
    {
      installs := installs + [crc];
      success := ok;
    }

    /** `xboot_reset`. */
    method Reset()
      modifies this
      ensures Model() == old(Model()).(resets := old(resets) + 1)
    {
      resets := resets + 1;
    }
  }

  /** The statics of `process_data`, with the backend they write to. */
  class UpdateSession {
    const pageBuffer: array<byte>
    var addr: uint32
    var committed: bool
    var offset: uint16
    const xboot: Xboot

    ghost predicate Valid()
      reads this
    {
      pageBuffer.Length == PAGE_SIZE
    }

    function Model(): Node
      requires Valid()
      reads this, pageBuffer, xboot
    {
      Node(Session(pageBuffer[..], addr, committed, offset), xboot.Model())
    }

    /** The statics start zeroed; the backend starts with nothing written. */
    constructor ()
      ensures Valid() && fresh(pageBuffer) && fresh(xboot)
      ensures Model() == Initial()
    {
      pageBuffer := new byte[PAGE_SIZE](_ => 0);
      addr := 0;
      committed := false;
      offset := 0;
      xboot := new Xboot();
    }

    /** `process_data(data, len)`. */
    method ProcessData(data: seq<byte>, a: Answers)
      requires Valid() && |data| < 256
      modifies this, pageBuffer, xboot
      ensures Valid()
      ensures Model() == Step(old(Model()), data, a)
    {
      if |data| < 1 {
        return;
      }
      if data[0] == TAG_APPEND {
        AppendChunk(data);
      } else if data[0] == TAG_ERASE {
        var ok := xboot.AppTempErase(a.eraseOk);
        if !ok {
          return;
        }
        addr := 0;
        committed := false;
        offset := 0;
      } else if data[0] == TAG_COMMIT {
        CommitPage(a.writeOk);
      } else if data[0] == TAG_FINALIZE {
        if |data| < 3 {
          return;
        }
        var target := FromLE16(data[1], data[2]);
        var crc := a.tempCrc;
        if crc != target {
          return;
        }
        var ok := xboot.InstallFirmware(target, a.installOk);
        if !ok {
          return;
        }
        xboot.Reset();
      }
    }

    /** The 'B' branch. */
    method AppendChunk(data: seq<byte>)
      requires Valid() && 1 <= |data| < 256
      modifies this, pageBuffer
      ensures Valid()
      ensures Model() == Append(old(Model()), data)
    {
      if |data| < 3 {
        return;
      }
      var len := |data| - 3;
      offset := FromLE16(data[1], data[2]);
      if offset + len > PAGE_SIZE {
        return;
      }
      ghost var before := pageBuffer[..];
      forall i | offset <= i < offset + len {
        pageBuffer[i] := data[3 + i - offset];
      }
      assert pageBuffer[..] == Overwrite(before, offset, data[3..]);
      committed := false;
      offset := offset + len;
    }

    /** The 'm' branch. */
    method CommitPage(ok: bool)
      requires Valid()
      modifies this, pageBuffer, xboot
      ensures Valid()
      ensures Model() == Commit(old(Model()), ok)
    {
      if committed {
        return;
      }
      ghost var before := pageBuffer[..];
      if offset < PAGE_SIZE {
        forall i | offset <= i < PAGE_SIZE {
          pageBuffer[i] := ERASED;
        }
      }
      assert pageBuffer[..] == PadFrom(before, offset);
      var success := xboot.AppTempWritePage(addr, pageBuffer, ok);
      if !success {
        return;
      }
      addr := (addr + PAGE_SIZE) % ADDR_MODULUS;
      committed := true;
      offset := 0;
    }
  }
}
