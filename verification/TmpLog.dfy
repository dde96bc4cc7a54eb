/**
 The log of one trading line: a header of 128 bytes whose last 16 are a checkpoint, then a record for
 each packet sent or received. Opening the log scans the records behind the checkpoint.

 The text in front of the checkpoint is read by other code: `accepts` says whether it names the expected
 day, firm, session and header size. Input and output errors are not part of this model.
*/
module TmpLog {
  import opened Wrappers
  import opened Bytes

  const HEADER_SIZE := 128
  const TEXT_SIZE := 112
  const RECORD_HEADER := 17
  const TMP_HEADER := 17
  const MARK: Bytes := [10, 255, 255, 255]
  const SEND: Byte := 83
  const RECV: Byte := 82
  const INFO: Byte := 73

  /** FHeader: where the scan starts, and the last numbers received and sent. */
  datatype Curr = Curr(fileSize: nat, rx: nat, tx: nat)

  datatype OpenError = FileTooSmall | FileHeader | CheckpointBeyondEnd | ReadRecordHeader | RecordMark | RecordSize |
                       ReadPacketHeader

  // ---- Little-endian numbers ----

  function Little(v: nat, n: nat): (bs: Bytes)
    ensures |bs| == n
  {
    if n == 0 then [] else [v % 256] + Little(v / 256, n - 1)
  }

  function FromLittle(bs: Bytes): nat {
    if bs == [] then 0 else bs[0] + 256 * FromLittle(bs[1..])
  }

  lemma {:induction false} LittleReads(v: nat, n: nat)
    requires v < Pow256(n)
    ensures FromLittle(Little(v, n)) == v
  {
    if n > 0 {
      LittleReads(v / 256, n - 1);
      assert Little(v, n)[1..] == Little(v / 256, n - 1);
    }
  }

  function Checkpoint(c: Curr): (bs: Bytes)
    ensures |bs| == 16
  {
    Little(c.fileSize, 8) + Little(c.rx, 4) + Little(c.tx, 4)
  }

  function ReadCheckpoint(bs: Bytes): Curr
    requires |bs| == 16
  {
    Curr(FromLittle(bs[..8]), FromLittle(bs[8..12]), FromLittle(bs[12..]))
  }

  // ---- The scan ----

  /** One turn of the loop in Open. A type that is none of the three is taken like Info. */
  function ReadRecord(file: Bytes, c: Curr): Result<Curr, OpenError> {
    var pos := c.fileSize;
    if pos + RECORD_HEADER > |file| then Err(ReadRecordHeader)
    else if file[pos..pos + 4] != MARK then Err(RecordMark)
    else
      var kind, size := file[pos + 4], FromBigEndian(file[pos + 5..pos + 9]);
      if kind == SEND || kind == RECV then
        if size <= RECORD_HEADER + TMP_HEADER then Err(RecordSize)
        else if pos + RECORD_HEADER + TMP_HEADER > |file| then Err(ReadPacketHeader)
        else
          var num := FromBigEndian(file[pos + 19..pos + 23]);
          Ok(Numbered(c, kind, num).(fileSize := pos + size))
      else Ok(c.(fileSize := pos + size))
  }

  function Numbered(c: Curr, kind: Byte, num: nat): Curr {
    if num == 0 then c else if kind == SEND then c.(tx := num) else c.(rx := num)
  }

  datatype Outcome = Done(c: Curr) | Failed(error: OpenError) | Endless

  /** The whole loop. A record that claims no size at all is read again and again. */
  function Walk(file: Bytes, c: Curr): Outcome
    decreases |file| - c.fileSize
  {
    if c.fileSize >= |file| then Done(c)
    else match ReadRecord(file, c)
      case Err(e) => Failed(e)
      case Ok(c') => if c'.fileSize == c.fileSize then Endless else Walk(file, c')
  }

  /** Where Open starts to scan. */
  function Start(file: Bytes): Curr
    requires |file| >= HEADER_SIZE
  {
    var c := ReadCheckpoint(file[TEXT_SIZE..HEADER_SIZE]);
    if c.fileSize < HEADER_SIZE then c.(fileSize := HEADER_SIZE) else c
  }

  /** Open of a file that is not empty. */
  function Opened(file: Bytes, accepts: bool): Outcome {
    if |file| < HEADER_SIZE then Failed(FileTooSmall)
    else if !accepts then Failed(FileHeader)
    else if Start(file).fileSize > |file| then Failed(CheckpointBeyondEnd)
    else Walk(file, Start(file))
  }

  // ---- Records ----

  datatype Record = Record(kind: Byte, payload: Bytes, time: Bytes) {
    /** The size fits its field, and a packet is longer than its header. */
    predicate Valid() {
      && kind in {SEND, RECV, INFO} && |time| == 8 && |payload| + RECORD_HEADER < Pow256(4)
      && (kind != INFO ==> |payload| > TMP_HEADER)
    }

    /** MsgSeqNum_ of a packet. */
    function Num(): nat { if kind == INFO || |payload| < 6 then 0 else FromBigEndian(payload[2..6]) }
  }

  /** TmpLogPacketHeader::Initialize, then the packet. */
  function Serialized(r: Record): Bytes {
    MARK + [r.kind] + FixedBigEndian(|r.payload| + RECORD_HEADER, 4) + r.time + r.payload
  }

  // ---- The log in place ----

  class ExgLineTmpLog {
    var file: Bytes
    var saved: Curr
    var curr: Curr
    var ready: bool

    constructor (file: Bytes)
      ensures this.file == file && !ready
    {
      this.file := file;
      saved, curr, ready := Curr(0, 0, 0), Curr(0, 0, 0), false;
    }

    /** `text` is the text part of a new header. The loop ends unless a record of size 0 is met. */
    method Open(text: Bytes, accepts: bool) returns (r: Result<(), OpenError>)
      requires |text| == TEXT_SIZE
      requires file != [] ==> Opened(file, accepts) != Endless
      modifies this
      ensures old(file) == [] ==>
                r == Ok(()) && file == text + Checkpoint(Curr(0, 0, 0)) && saved == curr == Curr(0, 0, 0)
      ensures old(file) != [] ==>
                && file == old(file)
                && match Opened(file, accepts)
                   case Done(c) => r == Ok(()) && curr == c && saved == ReadCheckpoint(file[TEXT_SIZE..HEADER_SIZE])
                   case Failed(e) => r == Err(e)
                   case Endless => false
      ensures ready == r.Ok?
    {
      saved, curr, ready := Curr(0, 0, 0), Curr(0, 0, 0), false;
      if |file| == 0 {
        file := text + Checkpoint(Curr(0, 0, 0));
        ready := true;
        return Ok(());
      }
      if |file| < HEADER_SIZE { return Err(FileTooSmall); }
      if !accepts { return Err(FileHeader); }
      saved := ReadCheckpoint(file[TEXT_SIZE..HEADER_SIZE]);
      curr := saved;
      if curr.fileSize < HEADER_SIZE { curr := curr.(fileSize := HEADER_SIZE); }
      if curr.fileSize == |file| {
        ready := true;
        return Ok(());
      }
      if curr.fileSize > |file| { return Err(CheckpointBeyondEnd); }
      r := ScanTail();
      ready := r.Ok?;
    }

    /** The loop of Open. */
    method ScanTail() returns (r: Result<(), OpenError>)
      requires Walk(file, curr) != Endless
      modifies `curr
      ensures match Walk(file, old(curr))
              case Done(c) => r == Ok(()) && curr == c
              case Failed(e) => r == Err(e)
              case Endless => false
    {
      while curr.fileSize < |file|
        invariant Walk(file, curr) == Walk(file, old(curr))
        decreases |file| - curr.fileSize
      {
        var one := ScanRecord();
        if one.Err? { return Err(one.error); }
      }
      return Ok(());
    }

    /** The body of the loop. */
    method ScanRecord() returns (r: Result<(), OpenError>)
      modifies `curr
      ensures match ReadRecord(file, old(curr))
              case Ok(c) => r == Ok(()) && curr == c
              case Err(e) => r == Err(e)
    {
      var pos := curr.fileSize;
      if pos + RECORD_HEADER > |file| { return Err(ReadRecordHeader); }
      if file[pos..pos + 4] != MARK { return Err(RecordMark); }
      var kind, size := file[pos + 4], FromBigEndian(file[pos + 5..pos + 9]);
      if kind == SEND || kind == RECV {
        if size <= RECORD_HEADER + TMP_HEADER { return Err(RecordSize); }
        if pos + RECORD_HEADER + TMP_HEADER > |file| { return Err(ReadPacketHeader); }
        var num := FromBigEndian(file[pos + 19..pos + 23]);
        if num != 0 {
          if kind == SEND { curr := curr.(tx := num); } else { curr := curr.(rx := num); }
        }
      }
      curr := curr.(fileSize := pos + size);
      return Ok(());
    }

    method UpdateLogHeader()
      requires |file| >= HEADER_SIZE
      modifies this
      ensures curr == old(curr).(fileSize := |old(file)|) && saved == curr && ready == old(ready)
      ensures file == if old(saved) == curr then old(file)
                      else old(file)[..TEXT_SIZE] + Checkpoint(curr) + old(file)[HEADER_SIZE..]
    {
      curr := curr.(fileSize := |file|);
      if curr == saved { return; }
      file := file[..TEXT_SIZE] + Checkpoint(curr) + file[HEADER_SIZE..];
      saved := curr;
    }

    method Append(bs: Bytes)
      modifies `file
      ensures file == old(file) + bs
    {
      file := file + bs;
    }

    /** CheckL30_EndOutBoundNum: `note` is the text that is logged. */
    method CheckL30(endn: nat, note: Record)
      requires note.kind == INFO
      modifies `file, `curr
      ensures if old(curr).rx > endn
              then file == old(file) + Serialized(note) && curr == old(curr).(rx := endn)
              else file == old(file) && curr == old(curr)
    {
      if curr.rx > endn {
        Append(Serialized(note));
        curr := curr.(rx := endn);
      }
    }

    method FetchTxSeqNum() returns (num: nat)
      modifies `curr
      ensures num == old(curr).tx + 1 && curr == old(curr).(tx := num)
    {
      num := curr.tx + 1;
      curr := curr.(tx := num);
    }

    method CheckSetRxSeqNum(num: nat) returns (ok: bool)
      modifies `curr
      ensures ok == (num == old(curr).rx + 1)
      ensures curr == if ok then old(curr).(rx := num) else old(curr)
    {
      if num != curr.rx + 1 { return false; }
      curr := curr.(rx := num);
      return true;
    }
  }
}
