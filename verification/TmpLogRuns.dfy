/** What opening a log recovers, for every well-formed log and every run of a session. */
module TmpLogRuns {
  import opened Wrappers
  import opened Bytes
  import opened TmpLog

  // ---- One record ----

  lemma Middle(a: Bytes, m: Bytes, b: Bytes, i: nat, j: nat)
    requires i <= j <= |m|
    ensures (a + m + b)[|a| + i..|a| + j] == m[i..j]
  {
  }

  lemma Parts(r: Record)
    requires r.Valid()
    ensures var s := Serialized(r);
            && |s| == RECORD_HEADER + |r.payload| && s[0..4] == MARK && s[4] == r.kind
            && s[5..9] == FixedBigEndian(|s|, 4) && s[17..] == r.payload
            && (|r.payload| >= 6 ==> s[19..23] == r.payload[2..6])
  {
    var s := Serialized(r);
    assert s[17..] == r.payload;
    if |r.payload| >= 6 { assert s[19..23] == s[17..][2..6]; }
  }

  /** The scan reads a record that was written. */
  lemma ReadWritten(file: Bytes, a: Bytes, r: Record, b: Bytes, c: Curr)
    requires r.Valid() && file == a + Serialized(r) + b && c.fileSize == |a|
    ensures ReadRecord(file, c) == Ok(Numbered(c, r.kind, r.Num()).(fileSize := |a| + |Serialized(r)|))
  {
    var s := Serialized(r);
    Parts(r);
    Middle(a, s, b, 0, 4);
    Middle(a, s, b, 4, 5);
    assert file[|a| + 4] == file[|a| + 4..|a| + 5][0];
    Middle(a, s, b, 5, 9);
    FixedRoundTrip(|s|, 4);
    if r.kind != INFO { Middle(a, s, b, 19, 23); }
  }

  // ---- All records ----

  ghost predicate AllValid(rs: seq<Record>) { forall r <- rs :: r.Valid() }

  function All(rs: seq<Record>): Bytes {
    if rs == [] then [] else Serialized(rs[0]) + All(rs[1..])
  }

  function Numbers(c: Curr, rs: seq<Record>): Curr
    decreases |rs|
  {
    if rs == [] then c else Numbers(Numbered(c, rs[0].kind, rs[0].Num()), rs[1..])
  }

  lemma {:induction false} AllAppend(rs: seq<Record>, more: seq<Record>)
    ensures All(rs + more) == All(rs) + All(more)
  {
    if rs == [] {
      assert rs + more == more;
    } else {
      assert (rs + more)[1..] == rs[1..] + more;
      AllAppend(rs[1..], more);
      AppendAssoc(Serialized(rs[0]), All(rs[1..]), All(more));
    }
  }

  lemma {:induction false} NumbersAppend(c: Curr, rs: seq<Record>, more: seq<Record>)
    ensures Numbers(c, rs + more) == Numbers(Numbers(c, rs), more)
    decreases |rs|
  {
    if rs == [] {
      assert rs + more == more;
    } else {
      assert (rs + more)[1..] == rs[1..] + more;
      NumbersAppend(Numbered(c, rs[0].kind, rs[0].Num()), rs[1..], more);
    }
  }

  lemma {:induction false} NumbersKeepSize(c: Curr, rs: seq<Record>, n: nat)
    ensures Numbers(c, rs).fileSize == c.fileSize
    ensures Numbers(c.(fileSize := n), rs) == Numbers(c, rs).(fileSize := n)
    decreases |rs|
  {
    if rs != [] { NumbersKeepSize(Numbered(c, rs[0].kind, rs[0].Num()), rs[1..], n); }
  }

  lemma {:induction false} WalkWritten(file: Bytes, a: Bytes, rs: seq<Record>, c: Curr)
    requires AllValid(rs) && file == a + All(rs) && c.fileSize == |a|
    ensures Walk(file, c) == Done(Numbers(c, rs).(fileSize := |file|))
    decreases |rs|
  {
    if rs == [] {
      assert file == a;
    } else {
      var r, rest := rs[0], rs[1..];
      AppendAssoc(a, Serialized(r), All(rest));
      ReadWritten(file, a, r, All(rest), c);
      Parts(r);
      var c' := Numbered(c, r.kind, r.Num()).(fileSize := |a| + |Serialized(r)|);
      WalkWritten(file, a + Serialized(r), rest, c');
      NumbersKeepSize(Numbered(c, r.kind, r.Num()), rest, c'.fileSize);
    }
  }

  /** A file of a header and records, with the checkpoint of a record boundary or none. */
  ghost predicate Checkpointed(file: Bytes, text: Bytes, saved: Curr, earlier: seq<Record>, later: seq<Record>) {
    && |text| == TEXT_SIZE && AllValid(earlier) && AllValid(later)
    && file == text + Checkpoint(saved) + All(earlier + later)
    && saved.fileSize < Pow256(8) && saved.rx < Pow256(4) && saved.tx < Pow256(4)
    && (saved.fileSize == HEADER_SIZE + |All(earlier)| || (earlier == [] && saved.fileSize < HEADER_SIZE))
  }

  lemma CheckpointReads(c: Curr)
    requires c.fileSize < Pow256(8) && c.rx < Pow256(4) && c.tx < Pow256(4)
    ensures ReadCheckpoint(Checkpoint(c)) == c
  {
    LittleReads(c.fileSize, 8);
    LittleReads(c.rx, 4);
    LittleReads(c.tx, 4);
    var bs := Checkpoint(c);
    assert bs[..8] == Little(c.fileSize, 8) && bs[8..12] == Little(c.rx, 4) && bs[12..] == Little(c.tx, 4);
  }

  lemma StartOf(file: Bytes, text: Bytes, saved: Curr, earlier: seq<Record>, later: seq<Record>)
    requires Checkpointed(file, text, saved, earlier, later)
    ensures |file| >= HEADER_SIZE && Start(file) == saved.(fileSize := HEADER_SIZE + |All(earlier)|)
  {
    CheckpointReads(saved);
    assert file[TEXT_SIZE..HEADER_SIZE] == Checkpoint(saved);
  }

  /** Opening scans exactly the records behind the checkpoint: it ends, and finds the numbers that those
      records leave on top of the checkpoint's. */
  lemma OpenRecovers(file: Bytes, text: Bytes, saved: Curr, earlier: seq<Record>, later: seq<Record>)
    requires Checkpointed(file, text, saved, earlier, later)
    ensures Opened(file, true) == Done(Numbers(saved, later).(fileSize := |file|))
  {
    StartOf(file, text, saved, earlier, later);
    AllAppend(earlier, later);
    var a := text + Checkpoint(saved) + All(earlier);
    assert file == a + All(later);
    WalkWritten(file, a, later, Start(file));
    NumbersKeepSize(saved, later, HEADER_SIZE + |All(earlier)|);
  }

  /** A correct checkpoint at any record boundary finds the same as scanning all records from the start. */
  lemma CheckpointIsAsGood(file: Bytes, file': Bytes, text: Bytes, saved: Curr, earlier: seq<Record>, later: seq<Record>)
    requires Checkpointed(file, text, saved, earlier, later)
    requires Checkpointed(file', text, Curr(0, 0, 0), [], earlier + later)
    requires saved == Numbers(Curr(0, 0, 0), earlier).(fileSize := saved.fileSize)
    ensures Opened(file, true) == Opened(file', true)
  {
    OpenRecovers(file, text, saved, earlier, later);
    OpenRecovers(file', text, Curr(0, 0, 0), [], earlier + later);
    SameNumbers(saved, earlier, later);
    assert [] + (earlier + later) == earlier + later;
    assert |file| == HEADER_SIZE + |All(earlier + later)| == |file'|;
  }

  lemma SameNumbers(saved: Curr, earlier: seq<Record>, later: seq<Record>)
    requires saved == Numbers(Curr(0, 0, 0), earlier).(fileSize := saved.fileSize)
    ensures Numbers(Curr(0, 0, 0), earlier + later) == Numbers(saved, later).(fileSize := 0)
  {
    var zero := Curr(0, 0, 0);
    NumbersAppend(zero, earlier, later);
    NumbersKeepSize(zero, earlier, 0);
    NumbersKeepSize(Numbers(zero, earlier), later, saved.fileSize);
  }

  /** A checkpoint beyond the end of the file is refused. */
  lemma BeyondEndRefused(file: Bytes)
    requires |file| >= HEADER_SIZE
    ensures Opened(file, true) == Failed(CheckpointBeyondEnd)
            <==> ReadCheckpoint(file[TEXT_SIZE..HEADER_SIZE]).fileSize > |file|
  {
    if Start(file).fileSize <= |file| { WalkErrors(file, Start(file)); }
  }

  lemma {:induction false} WalkErrors(file: Bytes, c: Curr)
    ensures Walk(file, c).Failed? ==> Walk(file, c).error !in {CheckpointBeyondEnd, FileTooSmall, FileHeader}
    decreases |file| - c.fileSize
  {
    if c.fileSize < |file| {
      match ReadRecord(file, c)
      case Err(_) =>
      case Ok(c') => if c'.fileSize != c.fileSize { WalkErrors(file, c'); }
    }
  }

  /** A file that does not hold a header is refused as too small, and any other as having the wrong header,
      if and only if its text is not the one expected. */
  lemma HeaderRefusedIff(file: Bytes, accepts: bool)
    ensures Opened(file, accepts) == Failed(FileTooSmall) <==> |file| < HEADER_SIZE
    ensures Opened(file, accepts) == Failed(FileHeader) <==> |file| >= HEADER_SIZE && !accepts
  {
    if |file| >= HEADER_SIZE && Start(file).fileSize <= |file| { WalkErrors(file, Start(file)); }
  }

  /** The scan takes a record exactly when there is its whole header with the mark, and, for one with a
      packet, when it claims more than the header of a packet behind its own and that is in the file. */
  lemma RecordTakenIff(file: Bytes, c: Curr)
    ensures ReadRecord(file, c).Ok? <==>
            && c.fileSize + 17 <= |file|
            && file[c.fileSize..c.fileSize + 4] == MARK
            && (file[c.fileSize + 4] == SEND || file[c.fileSize + 4] == RECV ==>
                  FromBigEndian(file[c.fileSize + 5..c.fileSize + 9]) > 17 + 17 && c.fileSize + 17 + 17 <= |file|)
  {
  }

  // ---- A last record that was not written to its end ----

  /** A file cut inside its last record: the scan fails if the cut is inside the headers it reads, and
      otherwise takes the record as if it were whole. */
  lemma TornTail(a: Bytes, r: Record, cut: nat, c: Curr)
    requires r.Valid() && 0 < cut < |Serialized(r)| && c.fileSize == |a|
    ensures var file := a + Serialized(r)[..cut];
            Walk(file, c) ==
            if cut < RECORD_HEADER then Failed(ReadRecordHeader)
            else if r.kind != INFO && cut < RECORD_HEADER + TMP_HEADER then Failed(ReadPacketHeader)
            else Done(Numbered(c, r.kind, r.Num()).(fileSize := |a| + |Serialized(r)|))
  {
    if cut >= RECORD_HEADER {
      var s := Serialized(r)[..cut];
      CutParts(r, cut);
      AppendNothing(a + s);
      Middle(a, s, [], 0, 4);
      Middle(a, s, [], 5, 9);
      assert (a + s)[|a| + 4] == s[4];
      FixedRoundTrip(|Serialized(r)|, 4);
      if r.kind != INFO && cut >= RECORD_HEADER + TMP_HEADER { Middle(a, s, [], 19, 23); }
    }
  }

  lemma CutParts(r: Record, cut: nat)
    requires r.Valid() && RECORD_HEADER <= cut < |Serialized(r)|
    ensures var s := Serialized(r)[..cut];
            && |Serialized(r)| == RECORD_HEADER + |r.payload| && s[0..4] == MARK && s[4] == r.kind
            && s[5..9] == FixedBigEndian(|Serialized(r)|, 4)
            && (r.kind != INFO && cut >= RECORD_HEADER + TMP_HEADER ==> s[19..23] == r.payload[2..6])
  {
    Parts(r);
    var s := Serialized(r)[..cut];
    assert s[0..4] == Serialized(r)[0..4] && s[5..9] == Serialized(r)[5..9];
    if cut >= RECORD_HEADER + TMP_HEADER { assert s[19..23] == Serialized(r)[19..23]; }
  }

  // ---- When the loop does not end ----

  /** The loop after n turns, if it gets that far. */
  function Turns(file: Bytes, c: Curr, n: nat): Option<Curr>
    decreases n
  {
    if n == 0 then Some(c)
    else if c.fileSize >= |file| then None
    else match ReadRecord(file, c) case Err(_) => None case Ok(c') => Turns(file, c', n - 1)
  }

  /** At `pos` there is a whole record header of none of the types with a packet, and it claims size 0. */
  predicate ZeroSized(file: Bytes, pos: nat) {
    && pos + RECORD_HEADER <= |file|
    && file[pos..pos + 4] == MARK
    && file[pos + 4] != SEND && file[pos + 4] != RECV
    && FromBigEndian(file[pos + 5..pos + 9]) == 0
  }

  /** Exactly such a record leaves the position, and with it everything else, as it was. */
  lemma StuckIffZeroSized(file: Bytes, c: Curr)
    ensures ZeroSized(file, c.fileSize) <==> ReadRecord(file, c) == Ok(c)
    ensures ReadRecord(file, c).Ok? && ReadRecord(file, c).value.fileSize == c.fileSize ==> ReadRecord(file, c) == Ok(c)
  {
  }

  lemma {:induction false} StuckForever(file: Bytes, c: Curr, n: nat)
    requires ZeroSized(file, c.fileSize)
    ensures Turns(file, c, n) == Some(c)
    decreases n
  {
    StuckIffZeroSized(file, c);
    if n > 0 { StuckForever(file, c, n - 1); }
  }

  /** If the scan is endless, it comes to such a record. */
  lemma {:induction false} EndlessMeetsZero(file: Bytes, c: Curr) returns (n: nat)
    requires Walk(file, c) == Endless
    ensures Turns(file, c, n).Some? && ZeroSized(file, Turns(file, c, n).value.fileSize)
    decreases |file| - c.fileSize
  {
    StuckIffZeroSized(file, c);
    var c' := ReadRecord(file, c).value;
    if c'.fileSize == c.fileSize {
      n := 0;
    } else {
      var n' := EndlessMeetsZero(file, c');
      n := n' + 1;
    }
  }

  lemma {:induction false} MeetsZeroIsEndless(file: Bytes, c: Curr, n: nat)
    requires Turns(file, c, n).Some? && ZeroSized(file, Turns(file, c, n).value.fileSize)
    ensures Walk(file, c) == Endless
    decreases n
  {
    StuckIffZeroSized(file, c);
    if n > 0 && !ZeroSized(file, c.fileSize) {
      MeetsZeroIsEndless(file, ReadRecord(file, c).value, n - 1);
    }
  }

  lemma {:induction false} EndlessTurns(file: Bytes, c: Curr, n: nat)
    requires Walk(file, c) == Endless
    ensures Turns(file, c, n).Some?
    decreases n
  {
    StuckIffZeroSized(file, c);
    if ZeroSized(file, c.fileSize) {
      StuckForever(file, c, n);
    } else if n > 0 {
      EndlessTurns(file, ReadRecord(file, c).value, n - 1);
    }
  }

  lemma {:induction false} EndingTurns(file: Bytes, c: Curr) returns (n: nat)
    requires Walk(file, c) != Endless
    ensures Turns(file, c, n).None?
    decreases |file| - c.fileSize
  {
    n := 1;
    if c.fileSize < |file| {
      match ReadRecord(file, c)
      case Err(_) =>
      case Ok(c') =>
        var n' := EndingTurns(file, c');
        n := n' + 1;
    }
  }

  /** The loop of Open turns forever if and only if some turn of it comes to a record, of none of the types
      with a packet, that claims size 0; and that is when the scan is called endless. */
  lemma EndlessIff(file: Bytes, c: Curr)
    ensures (forall n: nat :: Turns(file, c, n).Some?)
            <==> exists n: nat :: Turns(file, c, n).Some? && ZeroSized(file, Turns(file, c, n).value.fileSize)
    ensures Walk(file, c) == Endless
            <==> exists n: nat :: Turns(file, c, n).Some? && ZeroSized(file, Turns(file, c, n).value.fileSize)
  {
    if Walk(file, c) == Endless {
      var n := EndlessMeetsZero(file, c);
      forall k: nat
        ensures Turns(file, c, k).Some?
      {
        EndlessTurns(file, c, k);
      }
    } else {
      var k := EndingTurns(file, c);
      forall n: nat | Turns(file, c, n).Some?
        ensures !ZeroSized(file, Turns(file, c, n).value.fileSize)
      {
        if ZeroSized(file, Turns(file, c, n).value.fileSize) { MeetsZeroIsEndless(file, c, n); }
      }
    }
  }

  /** Open ends on exactly the files in which the scan does not come to such a record. */
  lemma OpenEndsIff(file: Bytes)
    requires HEADER_SIZE <= |file| && Start(file).fileSize <= |file|
    ensures Opened(file, true) != Endless
            <==> forall n: nat | Turns(file, Start(file), n).Some? ::
                   !ZeroSized(file, Turns(file, Start(file), n).value.fileSize)
  {
    EndlessIff(file, Start(file));
  }

  lemma SizeZeroIsStuck(a: Bytes, time: Bytes, c: Curr)
    requires |time| == 8 && c.fileSize == |a|
    ensures Walk(a + (MARK + [INFO] + FixedBigEndian(0, 4) + time), c) == Endless
  {
    var s := MARK + [INFO] + FixedBigEndian(0, 4) + time;
    AppendNothing(a + s);
    Middle(a, s, [], 0, 4);
    Middle(a, s, [], 5, 9);
    assert s[0..4] == MARK && s[5..9] == FixedBigEndian(0, 4) && (a + s)[|a| + 4] == INFO;
    FixedRoundTrip(0, 4);
  }

  /** Such a file: an Info record of size 0 behind an empty checkpoint. */
  lemma SizeZeroIsEndless(text: Bytes, time: Bytes)
    requires |text| == TEXT_SIZE && |time| == 8
    ensures Opened(text + Checkpoint(Curr(0, 0, 0)) + (MARK + [INFO] + FixedBigEndian(0, 4) + time), true) == Endless
  {
    var cp := Checkpoint(Curr(0, 0, 0));
    var a := text + cp;
    var file := a + (MARK + [INFO] + FixedBigEndian(0, 4) + time);
    CheckpointReads(Curr(0, 0, 0));
    assert file[TEXT_SIZE..HEADER_SIZE] == cp;
    SizeZeroIsStuck(a, time, Start(file));
  }

  // ---- Runs of a session ----

  /** What a session does with its log. A packet that is received is logged before its number is looked
      at, and its number counts only if it is an application packet and the next one expected. Packets
      recovered out of the data of an L41 count the same way, but have no record of their own. */
  datatype Op = Sends(r: Record, numbered: bool) | Receives(r: Record, ap: bool) | Recovers(nums: seq<nat>)
              | Corrects(endn: nat, note: Record) | Updates

  /** The number received after packets with these numbers; the loop goes on behind one that is refused. */
  function Recovered(rx: nat, nums: seq<nat>): (rx': nat)
    ensures rx' >= rx
    ensures rx' == rx || rx' in nums
  {
    if nums == [] then rx
    else
      var before, num := Recovered(rx, nums[..|nums| - 1]), nums[|nums| - 1];
      if num == before + 1 then num else before
  }

  /** `recs` and `mark` are bookkeeping of the model: the records written, and how many of them were
      written when the header was last updated. */
  datatype Log = Log(text: Bytes, file: Bytes, saved: Curr, curr: Curr, recs: seq<Record>, mark: nat)

  function Fresh(text: Bytes): Log {
    var zero := Curr(0, 0, 0);
    Log(text, text + Checkpoint(zero), zero, zero, [], 0)
  }

  function Written(s: Log, r: Record): Log {
    s.(file := s.file + Serialized(r), recs := s.recs + [r])
  }

  predicate Possible(s: Log, op: Op) {
    && |s.file| < Pow256(8)
    && match op
       case Sends(r, numbered) =>
         r.Valid() && r.kind == SEND && s.curr.tx + 1 < Pow256(4) && r.Num() == if numbered then s.curr.tx + 1 else 0
       case Receives(r, _) => r.Valid() && r.kind == RECV
       case Recovers(nums) => forall num <- nums :: num < Pow256(4)
       case Corrects(endn, note) => endn < Pow256(4) && note.Valid() && note.kind == INFO
       case Updates => true
  }

  function Next(s: Log, op: Op): Log
    requires Possible(s, op) && |s.file| >= HEADER_SIZE
  {
    match op
    case Sends(r, numbered) => Written(s.(curr := if numbered then s.curr.(tx := r.Num()) else s.curr), r)
    case Receives(r, ap) =>
      var taken := ap && r.Num() != 0 && r.Num() == s.curr.rx + 1;
      Written(s.(curr := if taken then s.curr.(rx := r.Num()) else s.curr), r)
    case Recovers(nums) => s.(curr := s.curr.(rx := Recovered(s.curr.rx, nums)))
    case Corrects(endn, note) => if s.curr.rx > endn then Written(s.(curr := s.curr.(rx := endn)), note) else s
    case Updates =>
      var curr := s.curr.(fileSize := |s.file|);
      s.(file := if s.saved == curr then s.file else s.file[..TEXT_SIZE] + Checkpoint(curr) + s.file[HEADER_SIZE..],
         saved := curr, curr := curr, mark := |s.recs|)
  }

  ghost predicate Inv(s: Log) {
    && s.mark <= |s.recs|
    && Checkpointed(s.file, s.text, s.saved, s.recs[..s.mark], s.recs[s.mark..])
    && s.curr.rx < Pow256(4) && s.curr.tx < Pow256(4)
    && Numbers(s.saved, s.recs[s.mark..]).tx == s.curr.tx
  }

  lemma NumBound(r: Record)
    ensures r.Num() < Pow256(4)
  {
    Pow256Values();
    if r.kind != INFO && |r.payload| >= 6 { FromBigEndianBound(r.payload[2..6]); }
  }

  lemma WrittenKeepsInv(s: Log, r: Record, curr: Curr)
    requires Inv(s) && r.Valid() && curr.rx < Pow256(4) && curr.tx < Pow256(4)
    requires curr.tx == if r.kind == SEND && r.Num() != 0 then r.Num() else s.curr.tx
    ensures Inv(Written(s.(curr := curr), r))
  {
    var recs := s.recs + [r];
    assert recs[..s.mark] == s.recs[..s.mark] && recs[s.mark..] == s.recs[s.mark..] + [r];
    assert s.recs[..s.mark] + s.recs[s.mark..] == s.recs && recs[..s.mark] + recs[s.mark..] == recs;
    AllAppend(s.recs, [r]);
    AllOne(r);
    AppendAssoc(s.text + Checkpoint(s.saved), All(s.recs), Serialized(r));
    NumbersAppend(s.saved, s.recs[s.mark..], [r]);
    NumbersOne(Numbers(s.saved, s.recs[s.mark..]), r);
  }

  lemma AllOne(r: Record)
    ensures All([r]) == Serialized(r)
  {
    assert [r][1..] == [];
    AppendNothing(Serialized(r));
  }

  lemma NumbersOne(c: Curr, r: Record)
    ensures Numbers(c, [r]) == Numbered(c, r.kind, r.Num())
  {
    assert [r][1..] == [];
  }

  lemma UpdateKeepsInv(s: Log)
    requires Inv(s) && |s.file| < Pow256(8) && |s.file| >= HEADER_SIZE
    ensures Inv(Next(s, Updates))
  {
    var s' := Next(s, Updates);
    var all := All(s.recs);
    assert s.recs[..s.mark] + s.recs[s.mark..] == s.recs;
    assert s.recs[..|s.recs|] == s.recs && s.recs[|s.recs|..] == [] && s.recs + [] == s.recs;
    HeaderReplaced(s.text, Checkpoint(s.saved), Checkpoint(s'.saved), all);
    forall r <- s.recs
      ensures r.Valid()
    {
      assert r in s.recs[..s.mark] || r in s.recs[s.mark..];
    }
  }

  lemma HeaderReplaced(text: Bytes, cp: Bytes, cp': Bytes, all: Bytes)
    requires |text| == TEXT_SIZE && |cp| == |cp'| == 16
    ensures var file := text + cp + all;
            file[..TEXT_SIZE] + cp' + file[HEADER_SIZE..] == text + cp' + all && |file| == HEADER_SIZE + |all|
  {
    var file := text + cp + all;
    assert file[..TEXT_SIZE] == text && file[HEADER_SIZE..] == all;
  }

  lemma StepKeepsInv(s: Log, op: Op)
    requires Inv(s) && Possible(s, op)
    ensures |s.file| >= HEADER_SIZE && Inv(Next(s, op))
  {
    match op
    case Sends(r, numbered) => NumBound(r); WrittenKeepsInv(s, r, if numbered then s.curr.(tx := r.Num()) else s.curr);
    case Receives(r, ap) => NumBound(r); WrittenKeepsInv(s, r, Next(s, op).curr);
    case Recovers(nums) => assert Inv(s.(curr := s.curr.(rx := Recovered(s.curr.rx, nums))));
    case Corrects(endn, note) => if s.curr.rx > endn { WrittenKeepsInv(s, note, s.curr.(rx := endn)); }
    case Updates => UpdateKeepsInv(s);
  }

  function Run(text: Bytes, ops: seq<Op>): Option<Log> {
    if ops == [] then Some(Fresh(text))
    else match Run(text, ops[..|ops| - 1])
      case None => None
      case Some(s) =>
        if Possible(s, ops[|ops| - 1]) && |s.file| >= HEADER_SIZE then Some(Next(s, ops[|ops| - 1])) else None
  }

  lemma FreshInv(text: Bytes)
    requires |text| == TEXT_SIZE
    ensures Inv(Fresh(text))
  {
    Pow256Values();
    AppendNothing(text + Checkpoint(Curr(0, 0, 0)));
    assert All([]) == [];
    assert Fresh(text).recs[..0] == [] && Fresh(text).recs[0..] == [];
  }

  lemma {:induction false} RunKeepsInv(text: Bytes, ops: seq<Op>)
    requires |text| == TEXT_SIZE && Run(text, ops).Some?
    ensures Inv(Run(text, ops).value)
  {
    if ops == [] {
      FreshInv(text);
    } else {
      RunKeepsInv(text, ops[..|ops| - 1]);
      StepKeepsInv(Run(text, ops[..|ops| - 1]).value, ops[|ops| - 1]);
    }
  }

  /** Whenever a session stops, opening its log ends, finds the size of the file, and finds the number of
      the last packet sent; the number received is that of the records behind the last update. */
  lemma AnyRunRecovers(text: Bytes, ops: seq<Op>)
    requires |text| == TEXT_SIZE && Run(text, ops).Some?
    ensures var s := Run(text, ops).value;
            && Opened(s.file, true).Done? && Opened(s.file, true).c.fileSize == |s.file|
            && Opened(s.file, true).c.tx == s.curr.tx
            && s.mark <= |s.recs| && Opened(s.file, true).c.rx == Numbers(s.saved, s.recs[s.mark..]).rx
  {
    RunKeepsInv(text, ops);
    var s := Run(text, ops).value;
    OpenRecovers(s.file, s.text, s.saved, s.recs[..s.mark], s.recs[s.mark..]);
  }

  /** The number received that a log opened now would find. */
  function FoundRx(s: Log): nat
    requires s.mark <= |s.recs|
  {
    Numbers(s.saved, s.recs[s.mark..]).rx
  }

  lemma FoundAfterWrite(s: Log, r: Record)
    requires s.mark <= |s.recs| && r.Valid()
    ensures FoundRx(Written(s, r)) == if r.kind == RECV && r.Num() != 0 then r.Num() else FoundRx(s)
  {
    assert (s.recs + [r])[s.mark..] == s.recs[s.mark..] + [r];
    NumbersAppend(s.saved, s.recs[s.mark..], [r]);
    NumbersOne(Numbers(s.saved, s.recs[s.mark..]), r);
  }

  /** How each step changes whether a log opened now would find the session's own number: an update
      makes it so, a packet in sequence makes it so, a packet out of sequence makes it so only by
      repeating the session's number, recovered packets only by leading up to the number that the log has,
      and a correction only by naming that one. */
  lemma FindsOwnNumberIff(s: Log, op: Op)
    requires Inv(s) && Possible(s, op) && |s.file| >= HEADER_SIZE
    ensures var s' := Next(s, op);
            && s'.mark <= |s'.recs|
            && (FoundRx(s') == s'.curr.rx <==>
                match op
                case Updates => true
                case Sends(_, _) => FoundRx(s) == s.curr.rx
                case Receives(r, ap) =>
                  if r.Num() == 0 then FoundRx(s) == s.curr.rx
                  else (ap && r.Num() == s.curr.rx + 1) || r.Num() == s.curr.rx
                case Recovers(nums) => FoundRx(s) == Recovered(s.curr.rx, nums)
                case Corrects(endn, _) =>
                  if s.curr.rx > endn then FoundRx(s) == endn else FoundRx(s) == s.curr.rx)
  {
    match op
    case Updates => assert s.recs[|s.recs|..] == [];
    case Sends(r, _) => FoundAfterWrite(s, r);
    case Receives(r, _) => FoundAfterWrite(s, r);
    case Recovers(_) =>
    case Corrects(endn, note) => FoundAfterWrite(s, note);
  }
}
