/** LogFileReader and LogFileWriter of src/dimserver/storage/clog/log_file.cpp. */
module LogFile {
  import opened Bytes
  import opened ReturnCode
  import opened Io
  import opened LogEntry
  import opened LogFormat

  class LogFileReader {
    var fd: int
    /** The file the descriptor refers to; of no account while the descriptor is negative. */
    var file: File

    constructor (f: File)
      ensures fd == -1 && file == f
    {
      fd, file := -1, f;
    }

    /** `handle` is the descriptor open(2) returned for `f`, negative when it failed. */
    method Open(handle: int, f: File) returns (rc: RC)
      modifies this
      ensures fd == handle && file == f
      ensures rc == if handle < 0 then FILE_NOT_FOUND else SUCCESS
    {
      fd, file := handle, f;
      rc := if fd < 0 then FILE_NOT_FOUND else SUCCESS;
    }

    method Close() returns (rc: RC)
      modifies this
      ensures fd == (if old(fd) < 0 then old(fd) else -1) && file == old(file)
      ensures rc == if old(fd) < 0 then FILE_NOT_FOUND else SUCCESS
    {
      if fd < 0 {
        return FILE_NOT_FOUND;
      }
      fd := -1;
      rc := SUCCESS;
    }

    /** As long as the kernel does not fail, the loop ends where `Seek` says, with HEAD_SIZE bytes
        skipped after each header. */
    method GoTo(kernel: Kernel, lsn: Int64) returns (rc: RC)
      modifies kernel, file`pos
      ensures fd < 0 ==> rc == FILE_NOT_FOUND
      ensures old(kernel.faulted) ==> kernel.faulted
      ensures fd >= 0 && !kernel.faulted ==> Landing(rc, file.pos) == Seek(file.bytes, 0, lsn, HeadSize)
      ensures fd >= 0 && !old(kernel.faulted) && kernel.faulted ==> rc == IOERR_READ
    {
      if fd < 0 {
        return FILE_NOT_FOUND;
      }
      file.pos := 0;
      while true
        invariant file.bytes == old(file.bytes)
        invariant kernel.faulted == old(kernel.faulted)
        invariant Seek(file.bytes, 0, lsn, HeadSize) == Seek(file.bytes, file.pos, lsn, HeadSize)
        decreases |file.bytes| - file.pos
      {
        var at := file.pos;
        var ret, buf := ReadN(kernel, file, HEAD_SIZE);
        if ret != 0 {
          if ret == -1 {
            break;
          }
          return IOERR_READ;
        }
        var header := DecodeHeader(buf);
        if header.lsn >= lsn {
          file.pos := file.pos - HEAD_SIZE;
          break;
        }
        if header.dataSize < 0 || header.dataSize > MAX_PAYLOAD_SIZE {
          return IOERR_READ;
        }
        file.pos := file.pos + HEAD_SIZE;
      }
      rc := SUCCESS;
    }

    /** As long as the kernel does not fail, the callback sees what `Iterate` says; otherwise it has
        seen a prefix of that. */
    method Iterate(kernel: Kernel, cb: Callback, startLsn: Int64) returns (rc: RC, delivered: seq<Entry>)
      requires !kernel.faulted
      modifies kernel, file`pos
      ensures fd < 0 ==> rc == FILE_NOT_FOUND && delivered == []
      ensures fd >= 0 && !kernel.faulted ==>
                Delivery(rc, delivered) == LogFormat.Iterate(file.bytes, startLsn, HeadSize, cb)
      ensures fd >= 0 && kernel.faulted ==> rc == IOERR_READ
      ensures fd >= 0 ==> delivered <= LogFormat.Iterate(file.bytes, startLsn, HeadSize, cb).entries
    {
      hide Seek, DecodeHeader, Rebuilt, Deliver;
      delivered := [];
      rc := GoTo(kernel, startLsn);
      if rc.IsFail() {
        return rc, delivered;
      }
      ghost var bytes, start := file.bytes, file.pos;
      while true
        invariant file.bytes == bytes
        invariant !kernel.faulted
        invariant Deliver(bytes, start, cb, []) == Deliver(bytes, file.pos, cb, delivered)
        decreases |bytes| - file.pos
      {
        ghost var at := file.pos;
        DeliverExtends(bytes, at, cb, delivered);
        DeliverStep(bytes, at, cb, delivered);
        var ret, buf := ReadN(kernel, file, HEAD_SIZE);
        if ret != 0 {
          if ret == -1 {
            break;
          }
          return IOERR_READ, delivered;
        }
        var header := DecodeHeader(buf);
        if header.dataSize < 0 {
          // the vector's length does not fit: std::length_error
          return THROWN, delivered;
        }
        var data;
        ret, data := ReadN(kernel, file, header.dataSize);
        if ret != 0 {
          return IOERR_READ, delivered;
        }
        var entry := MakeFromDisk(header, data);
        delivered := delivered + [entry];
        rc := cb(delivered);
        if rc.IsFail() {
          return rc, delivered;
        }
      }
      rc := SUCCESS;
    }

    /** The local entry of the loop; the result of `init` is not looked at. */
    method MakeFromDisk(header: Header, data: seq<Byte>) returns (e: Entry)
      ensures e == Rebuilt(header, data)
    {
      var entry := new LogEntry();
      var _ := entry.Init(header.lsn, header.moduleId, data);
      e := entry.Value();
    }
  }

  /** One turn of the iterate loop. */
  lemma DeliverStep(file: seq<Byte>, pos: nat, cb: Callback, sofar: seq<Entry>)
    ensures !HeaderAt(file, pos) ==> Deliver(file, pos, cb, sofar) == Delivery(SUCCESS, sofar)
    ensures HeaderAt(file, pos) && HeaderOf(file, pos).dataSize < 0 ==>
              Deliver(file, pos, cb, sofar) == Delivery(THROWN, sofar)
    ensures HeaderAt(file, pos) && pos + HEAD_SIZE + HeaderOf(file, pos).dataSize > |file| ==>
              Deliver(file, pos, cb, sofar) == Delivery(IOERR_READ, sofar)
    ensures HeaderAt(file, pos) && 0 <= HeaderOf(file, pos).dataSize <= |file| - pos - HEAD_SIZE ==>
              var body, next := pos + HEAD_SIZE, pos + HEAD_SIZE + HeaderOf(file, pos).dataSize;
              var now := sofar + [Rebuilt(HeaderOf(file, pos), file[body..next])];
              Deliver(file, pos, cb, sofar)
                  == if cb(now).IsFail() then Delivery(cb(now), now) else Deliver(file, next, cb, now)
  {
    hide DecodeHeader, Rebuilt;
  }

  class LogFileWriter {
    var fd: int
    /** The file the descriptor refers to; of no account while the descriptor is negative. */
    var file: File
    var lastLsn: Int64
    var endLsn: Int64

    constructor (f: File)
      ensures fd == -1 && file == f && lastLsn == 0 && endLsn == 0
    {
      fd, file, lastLsn, endLsn := -1, f, 0, 0;
    }

    /** `handle` is the descriptor open(2) would return for `f`, negative when it would fail. */
    method Open(handle: int, f: File, end: Int64) returns (rc: RC)
      modifies this
      ensures old(fd) >= 0 ==> rc == FILE_OPEND && fd == old(fd) && file == old(file) && endLsn == old(endLsn)
      ensures old(fd) < 0 && handle < 0 ==> rc == FILE_NOT_FOUND && fd < 0 && endLsn == old(endLsn)
      ensures old(fd) < 0 && handle >= 0 ==> rc == SUCCESS && fd == handle && file == f && endLsn == end
      ensures lastLsn == old(lastLsn)
    {
      if fd >= 0 {
        return FILE_OPEND;
      }
      fd, file := handle, f;
      if fd < 0 {
        return FILE_NOT_FOUND;
      }
      endLsn := end;
      rc := SUCCESS;
    }

    method Close() returns (rc: RC)
      modifies this`fd
      ensures rc == SUCCESS && fd == if old(fd) < 0 then old(fd) else -1
    {
      if fd < 0 {
        return SUCCESS;
      }
      fd := -1;
      rc := SUCCESS;
    }

    /** Appends the whole record, or nothing, or after a kernel failure a proper prefix of it.  The record
        has as many payload bytes as the header says. */
    method Write(kernel: Kernel, entry: Entry) returns (rc: RC)
      requires 0 <= entry.PayloadSize() <= |entry.data|
      modifies kernel, this`lastLsn, file`bytes
      ensures rc == FILE_NOT_OPEN <==> fd < 0
      ensures rc == FILE_FULL <==> fd >= 0 && entry.Lsn() >= endLsn
      ensures rc in {SUCCESS, FILE_NOT_OPEN, FILE_FULL, IOERR_WRITE}
      ensures var record := EncodeHeader(entry.header) + entry.data[..entry.PayloadSize()];
              && (rc == SUCCESS ==> file.bytes == old(file.bytes) + record)
              && (rc == IOERR_WRITE ==> Torn(file.bytes, old(file.bytes), record))
              && (rc == FILE_NOT_OPEN || rc == FILE_FULL ==> file.bytes == old(file.bytes))
      ensures entry.Sized() ==> Recorded(rc, old(file.bytes), entry, file.bytes)
      ensures lastLsn == if rc == SUCCESS then entry.Lsn() else old(lastLsn)
      ensures kernel.faulted == (old(kernel.faulted) || rc == IOERR_WRITE)
    {
      if fd < 0 {
        return FILE_NOT_OPEN;
      }
      if entry.Lsn() >= endLsn {
        return FILE_FULL;
      }
      hide EncodeHeader;
      var head, data := EncodeHeader(entry.header), entry.data[..entry.PayloadSize()];
      assert entry.Sized() ==> data == entry.data;
      ghost var before := file.bytes;
      var ret := WriteN(kernel, file, head);
      if ret != 0 {
        TornInParts(file.bytes, before, head, data);
        return IOERR_WRITE;
      }
      ret := WriteN(kernel, file, data);
      if ret != 0 {
        TornInParts(file.bytes, before, head, data);
        return IOERR_WRITE;
      }
      lastLsn := entry.Lsn();
      rc := SUCCESS;
    }
  }

  /** What one call of `write` leaves behind: the record, nothing, or after a kernel failure a proper
      prefix of it. */
  predicate Recorded(rc: RC, before: seq<Byte>, e: Entry, now: seq<Byte>) {
    if rc == SUCCESS then now == before + Encode(e)
    else if rc == IOERR_WRITE then Torn(now, before, Encode(e))
    else now == before
  }
}
