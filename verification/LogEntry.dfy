/** Log records: src/dimserver/storage/clog/log_entry.h and log_entry.cpp. */
module LogEntry {
  import opened Bytes
  import opened ReturnCode

  const HEAD_SIZE: nat := 16
  const MAX_SIZE: nat := 4 * 1024 * 1024
  const MAX_PAYLOAD_SIZE: nat := MAX_SIZE - HEAD_SIZE

  datatype Header = Header(lsn: Int64, dataSize: Int32, moduleId: Int32)

  const NO_HEADER := Header(0, 0, 0)

  /** The value of a log entry. */
  datatype Entry = Entry(header: Header, data: seq<Byte>)
  {
    function Lsn(): Int64 { header.lsn }
    function PayloadSize(): Int32 { header.dataSize }
    function TotalSize(): int { header.dataSize + HEAD_SIZE }

    function WithLsn(lsn: Int64): Entry {
      this.(header := header.(lsn := lsn))
    }

    /** The header tells the payload's true size, and the size limit is kept. */
    predicate Sized() {
      header.dataSize == |data| <= MAX_PAYLOAD_SIZE
    }
  }

  const NO_ENTRY := Entry(NO_HEADER, [])

  /** What `init` accepts: the payload size is first cut to 32 bits with sign. */
  predicate Accepts(data: seq<Byte>) {
    WrapInt32(|data|) <= MAX_PAYLOAD_SIZE
  }

  function MakeEntry(lsn: Int64, moduleId: Int32, data: seq<Byte>): Entry {
    Entry(Header(lsn, WrapInt32(|data|), moduleId), data)
  }

  /** An accepted payload is recorded with its true size exactly when it is within the limit; a payload
      of 2 GiB or more can slip through with a wrong or negative size. */
  lemma AcceptedIsSizedExactly(lsn: Int64, moduleId: Int32, data: seq<Byte>)
    ensures Accepts(data) && MakeEntry(lsn, moduleId, data).Sized() <==> |data| <= MAX_PAYLOAD_SIZE
    ensures |data| < TWO_31 ==> (Accepts(data) <==> |data| <= MAX_PAYLOAD_SIZE)
    ensures |data| == TWO_31 ==> Accepts(data) && MakeEntry(lsn, moduleId, data).PayloadSize() == -TWO_31
  {
    if |data| < TWO_31 {
      assert |data| % TWO_32 == |data|;
    }
  }

  class LogEntry {
    var header: Header
    var data: seq<Byte>

    function Value(): Entry
      reads this
    {
      Entry(header, data)
    }

    constructor ()
      ensures Value() == NO_ENTRY
    {
      header, data := NO_HEADER, [];
    }

    /** Rejects an oversized payload and leaves the entry as it was; otherwise fills the whole entry. */
    method Init(lsn: Int64, moduleId: Int32, payload: seq<Byte>) returns (rc: RC)
      modifies this
      ensures rc == if Accepts(payload) then SUCCESS else MESSAGE_INVALID
      ensures Value() == if Accepts(payload) then MakeEntry(lsn, moduleId, payload) else old(Value())
    {
      if WrapInt32(|payload|) > MAX_PAYLOAD_SIZE {
        return MESSAGE_INVALID;
      }
      header := Header(lsn, WrapInt32(|payload|), moduleId);
      data := payload;
      rc := SUCCESS;
    }

    method SetLsn(lsn: Int64)
      modifies this`header
      ensures Value() == old(Value()).WithLsn(lsn)
    {
      header := header.(lsn := lsn);
    }

    /** The move operations: the value leaves and the source is back in its default state. */
    method Take() returns (e: Entry)
      modifies this
      ensures e == old(Value()) && Value() == NO_ENTRY
    {
      e := Entry(header, data);
      header, data := NO_HEADER, [];
    }
  }
}
