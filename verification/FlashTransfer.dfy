/** Block-wise flash transfer (`transfer_ecu_data`): TransferData requests with a wrapping block
    sequence counter (section 15.4 of ISO 14229-1:2020). */
module FlashTransfer {
  import opened Bytes

  const U64_MAX: u64 := 0xFFFF_FFFF_FFFF_FFFF

  datatype Status = Queued | Running | Finished | Aborted

  datatype MetaData = MetaData(acknowledged: u64, blockSize: nat, nextCounter: byte, status: Status)

  /** How one block fares: a file error before it is sent, a transport error, or a reply. A negative
      reply is a reply like any other here. `Vanished` is a reply that finds the transfer entry gone. */
  datatype BlockFate = FileError | SendError | Positive | Negative | Vanished

  predicate Replied(f: BlockFate) { f.Positive? || f.Negative? }

  datatype Stop = Done | AbortedBy(fate: BlockFate) | NoEntry | InFlight

  function Min(a: nat, b: nat): nat { if a <= b then a else b }

  function SaturatingAdd64(a: u64, b: nat): (r: u64) { Min(a as int + b, U64_MAX) }

  /** Offset at which block i begins: each block takes a block size, or what is left. */
  function Cut(length: nat, blockSize: nat, i: nat): (c: nat)
    ensures c <= length
  {
    if i == 0 then 0
    else
      var c := Cut(length, blockSize, i - 1);
      c + Min(blockSize, length - c)
  }

  lemma {:induction false} CutIsMultiple(length: nat, blockSize: nat, i: nat)
    ensures Cut(length, blockSize, i) == Min(i * blockSize, length)
  {
    if i > 0 {
      CutIsMultiple(length, blockSize, i - 1);
      assert i * blockSize == (i - 1) * blockSize + blockSize;
      assert (i - 1) * blockSize >= 0;
    }
  }

  /** Data bytes of block i. */
  function Data(content: seq<byte>, length: nat, blockSize: nat, i: nat): (d: seq<byte>)
    requires Cut(length, blockSize, i + 1) <= |content|
  {
    content[Cut(length, blockSize, i)..Cut(length, blockSize, i + 1)]
  }

  /** The block sequence counter after n wrapping increments. */
  function CounterAt(counter: byte, n: nat): (c: byte) {
    if n == 0 then counter else (CounterAt(counter, n - 1) as int + 1) % 0x100
  }

  lemma {:induction false} CounterWraps(counter: byte, n: nat)
    ensures CounterAt(counter, n) == (counter as int + n) % 0x100
  {
    if n > 0 {
      CounterWraps(counter, n - 1);
      Increment(counter as int + n - 1);
    }
  }

  lemma Increment(x: nat)
    ensures (x % 0x100 + 1) % 0x100 == (x + 1) % 0x100
  {
  }

  /** The raw TransferData parameter record of block i. */
  function Block(content: seq<byte>, length: nat, blockSize: nat, counter: byte, i: nat): (b: seq<byte>)
    requires Cut(length, blockSize, i + 1) <= |content|
  {
    [CounterAt(counter, i)] + Data(content, length, blockSize, i)
  }

  /** Data of the first n blocks, end to end. */
  function Payload(content: seq<byte>, length: nat, blockSize: nat, n: nat): (d: seq<byte>)
    requires Cut(length, blockSize, n) <= |content|
    ensures |d| == Cut(length, blockSize, n)
  {
    if n == 0 then []
    else Payload(content, length, blockSize, n - 1) + Data(content, length, blockSize, n - 1)
  }

  /** The blocks sent so far carry exactly the slice up to the next cut: nothing lost, nothing twice. */
  lemma {:induction false} PayloadIsSlice(content: seq<byte>, length: nat, blockSize: nat, n: nat)
    requires Cut(length, blockSize, n) <= |content|
    ensures Payload(content, length, blockSize, n) == content[..Cut(length, blockSize, n)]
  {
    if n > 0 {
      PayloadIsSlice(content, length, blockSize, n - 1);
    }
  }

  function CeilDiv(a: nat, b: nat): nat
    requires b > 0
  {
    (a + b - 1) / b
  }

  /** Exactly ceil(length / blockSize) blocks cover the slice, and fewer do not. */
  lemma BlocksToCover(length: nat, blockSize: nat, n: nat)
    requires blockSize > 0
    ensures Cut(length, blockSize, n) == length <==> n >= CeilDiv(length, blockSize)
  {
    var c := CeilDiv(length, blockSize);
    CutIsMultiple(length, blockSize, n);
    CeilBounds(length, blockSize);
    if n >= c {
      Multiply(c, n, blockSize);
    } else {
      Multiply(n, c - 1, blockSize);
    }
  }

  lemma Multiply(a: nat, b: nat, k: nat)
    requires a <= b
    ensures a * k <= b * k
  {
  }

  lemma CeilBounds(length: nat, blockSize: nat)
    requires blockSize > 0
    ensures var c := CeilDiv(length, blockSize);
            c * blockSize >= length && (c == 0 || (c - 1) * blockSize < length)
  {
    var c := CeilDiv(length, blockSize);
    assert length + blockSize - 1 == c * blockSize + (length + blockSize - 1) % blockSize;
    assert (c - 1) * blockSize == c * blockSize - blockSize;
  }

  /** The first n blocks. */
  function Blocks(content: seq<byte>, length: nat, blockSize: nat, counter: byte, n: nat): (b: seq<seq<byte>>)
    requires Cut(length, blockSize, n) <= |content|
    ensures |b| == n
  {
    if n == 0 then []
    else Blocks(content, length, blockSize, counter, n - 1) + [Block(content, length, blockSize, counter, n - 1)]
  }

  /** Block i carries counter (c0 + i) mod 256 and its own stretch of the file. */
  lemma {:induction false} BlockAt(content: seq<byte>, length: nat, blockSize: nat, counter: byte, n: nat, i: nat)
    requires Cut(length, blockSize, n) <= |content| && i < n
    ensures Cut(length, blockSize, i) <= Cut(length, blockSize, i + 1) <= |content|
    ensures Blocks(content, length, blockSize, counter, n)[i]
         == [(counter as int + i) % 0x100] + content[Cut(length, blockSize, i)..Cut(length, blockSize, i + 1)]
  {
    CounterWraps(counter, i);
    if i < n - 1 {
      BlockAt(content, length, blockSize, counter, n - 1, i);
    }
  }

  /** The transfers registered per ECU. */
  class DataTransfers {
    var transfers: map<Name, MetaData>

    constructor ()
      ensures transfers == map[]
    {
      transfers := map[];
    }

    method SetAborted(ecu: Name)
      modifies this
      ensures transfers == if ecu in old(transfers)
                           then old(transfers)[ecu := old(transfers)[ecu].(status := Aborted)] else old(transfers)
    {
      if ecu in transfers {
        transfers := transfers[ecu := transfers[ecu].(status := Aborted)];
      }
    }

    /** One pass of the loop: read, send, and on a reply account for the block under the lock. */
    method TransferBlock(
      ecu: Name, length: nat, content: seq<byte>, fate: BlockFate, blockSize: nat, counter: byte,
      blocks: seq<seq<byte>>, acked: nat, remaining: nat, ghost plan: Plan)
      returns (sent: seq<seq<byte>>, size: nat, stop: Option<Stop>)
      requires Underway(plan, blocks, acked, remaining) && remaining > 0 && acked < |plan.fates|
      requires length == plan.length && content == plan.content && fate == plan.fates[acked]
      requires blockSize == plan.entry.blockSize && counter == CounterAt(plan.entry.nextCounter, acked)
      requires ecu in transfers && transfers[ecu] == Entry(plan, acked, InFlight)
      modifies this
      ensures stop.None? ==>
                && size == Min(blockSize, remaining)
                && Underway(plan, sent, acked + 1, remaining - size)
                && transfers == old(transfers)[ecu := Entry(plan, acked + 1, Progress(remaining - size))]
      ensures stop.Some? ==>
                && Sound(plan, sent, acked, remaining, stop.value)
                && transfers == (if stop.value.NoEntry? then old(transfers) - {ecu}
                                 else old(transfers)[ecu := Entry(plan, acked, stop.value)])
    {
      var pos := length - remaining;
      size := Min(blockSize, remaining);
      NextBlock(plan, blocks, acked, remaining);
      if fate.FileError? || pos + size > |content| {
        SetAborted(ecu);
        return blocks, size, Some(AbortedBy(FileError));
      }
      sent := blocks + [[counter] + content[pos..pos + size]];
      StopsOrAdvances(plan, blocks, acked, remaining, sent);
      if fate.SendError? {
        SetAborted(ecu);
        return sent, size, Some(AbortedBy(SendError));
      }
      if fate.Vanished? {
        transfers := transfers - {ecu};
        return sent, size, Some(NoEntry);
      }
      NextEntry(plan, acked, remaining, size);
      var entry := transfers[ecu];
      transfers := transfers[ecu := MetaData(
        SaturatingAdd64(entry.acknowledged, size), blockSize, (counter as int + 1) % 0x100,
        if remaining == size then Finished else entry.status)];
      stop := None;
    }

    /** The transfer task. `content` is the file from the requested offset on, `fates` any finite
        prefix of what happens to the blocks. */
    method TransferEcuData(ecu: Name, length: nat, content: seq<byte>, fates: seq<BlockFate>)
      returns (blocks: seq<seq<byte>>, acked: nat, remaining: nat, stop: Stop)
      requires length > 0
      modifies this
      ensures ecu !in old(transfers) ==> stop == NoEntry && blocks == [] && transfers == old(transfers)
      ensures ecu in old(transfers) ==>
                var plan := Plan(old(transfers)[ecu], length, content, fates);
                && Sound(plan, blocks, acked, remaining, stop)
                && (!stop.NoEntry? ==> transfers == old(transfers)[ecu := Entry(plan, acked, stop)])
    {
      blocks, acked, remaining := [], 0, length;
      if ecu !in transfers { return blocks, acked, remaining, NoEntry; }
      ghost var plan := Plan(transfers[ecu], length, content, fates);
      var blockSize, counter := transfers[ecu].blockSize, transfers[ecu].nextCounter;
      transfers := transfers[ecu := transfers[ecu].(status := Running)];
      Beginning(plan);
      while remaining > 0
        invariant blockSize == plan.entry.blockSize && counter == CounterAt(plan.entry.nextCounter, acked)
        invariant Underway(plan, blocks, acked, remaining)
        invariant transfers == old(transfers)[ecu := Entry(plan, acked, Progress(remaining))]
        decreases |fates| - acked
      {
        Between(plan, blocks, acked, remaining);
        if acked == |fates| { return blocks, acked, remaining, InFlight; }
        var sent, size, halt :=
          TransferBlock(ecu, length, content, fates[acked], blockSize, counter, blocks, acked, remaining, plan);
        blocks := sent;
        if halt.Some? { return blocks, acked, remaining, halt.value; }
        acked, remaining, counter := acked + 1, remaining - size, (counter as int + 1) % 0x100;
      }
      Between(plan, blocks, acked, remaining);
      return blocks, acked, remaining, Done;
    }
  }

  /** A transfer as it was registered, the file from its offset on, and what happens to its blocks. */
  datatype Plan = Plan(entry: MetaData, length: nat, content: seq<byte>, fates: seq<BlockFate>) {
    /** Where block i begins. */
    function At(i: nat): nat { Cut(length, entry.blockSize, i) }

    function FirstBlocks(n: nat): seq<seq<byte>>
      requires At(n) <= |content|
    {
      Blocks(content, length, entry.blockSize, entry.nextCounter, n)
    }

    ghost predicate RepliedUpTo(n: nat) { n <= |fates| && forall i :: 0 <= i < n ==> Replied(fates[i]) }
  }

  function Progress(remaining: nat): Stop { if remaining == 0 then Done else InFlight }

  /** What holds whenever a block is about to be sent. */
  ghost predicate Underway(plan: Plan, blocks: seq<seq<byte>>, acked: nat, remaining: nat) {
    && acked == |blocks| && plan.RepliedUpTo(acked)
    && plan.At(acked) <= |plan.content|
    && remaining == plan.length - plan.At(acked)
    && blocks == plan.FirstBlocks(acked)
    && (acked > 0 ==> plan.At(acked - 1) < plan.length)
  }

  /** What holds when the task stops: the frames sent are the first blocks of the plan, all but
      possibly the last were replied to, and sent plus remaining is the length. */
  ghost predicate Sound(plan: Plan, blocks: seq<seq<byte>>, acked: nat, remaining: nat, stop: Stop) {
    && acked <= |blocks| <= acked + 1 && plan.RepliedUpTo(acked)
    && plan.At(|blocks|) <= |plan.content|
    && blocks == plan.FirstBlocks(|blocks|)
    && remaining == plan.length - plan.At(acked)
    && (acked > 0 ==> plan.At(acked - 1) < plan.length)
    && (stop.Done? <==> remaining == 0)
    && match stop
       case Done => acked == |blocks|
       case InFlight => acked == |blocks| == |plan.fates|
       case NoEntry => acked < |plan.fates| && plan.fates[acked].Vanished?
       case AbortedBy(FileError) =>
         && acked == |blocks| < |plan.fates|
         && (plan.fates[acked].FileError? || plan.At(acked + 1) > |plan.content|)
       case AbortedBy(fate) => acked < |plan.fates| && fate.SendError? && plan.fates[acked] == fate
  }

  /** The transfer's entry after so many replied blocks. */
  function Entry(plan: Plan, acked: nat, stop: Stop): MetaData {
    MetaData(SaturatingAdd64(plan.entry.acknowledged, plan.At(acked)), plan.entry.blockSize,
             CounterAt(plan.entry.nextCounter, acked),
             match stop case Done => Finished case AbortedBy(_) => Aborted case _ => Running)
  }

  /** The entry a stopped task leaves: Finished exactly when nothing remains, Aborted exactly after a file
      or send error, and otherwise still Running; the acknowledged bytes are those of the replied blocks on
      top of what was there, and the counter has moved once per reply. */
  lemma FinalEntry(plan: Plan, blocks: seq<seq<byte>>, acked: nat, remaining: nat, stop: Stop)
    requires Sound(plan, blocks, acked, remaining, stop) && !stop.NoEntry?
    ensures var entry := Entry(plan, acked, stop);
            && (entry.status == Finished <==> remaining == 0)
            && (entry.status == Aborted <==>
                  && remaining > 0 && acked < |plan.fates|
                  && (|| plan.fates[acked].FileError? || plan.fates[acked].SendError?
                      || plan.At(acked + 1) > |plan.content|))
            && (entry.status == Running <==> remaining > 0 && acked == |plan.fates|)
            && entry.acknowledged
               == Min(plan.entry.acknowledged as int + plan.length - remaining, 0xFFFF_FFFF_FFFF_FFFF)
            && entry.nextCounter == (plan.entry.nextCounter as int + acked) % 0x100
            && entry.blockSize == plan.entry.blockSize
  {
    CounterWraps(plan.entry.nextCounter, acked);
  }

  lemma Beginning(plan: Plan)
    requires plan.length > 0
    ensures Underway(plan, [], 0, plan.length)
    ensures plan.entry.(status := Running) == Entry(plan, 0, InFlight)
  {
  }

  /** Between two blocks the loop may stop: for want of time, or because nothing remains. */
  lemma Between(plan: Plan, blocks: seq<seq<byte>>, acked: nat, remaining: nat)
    requires Underway(plan, blocks, acked, remaining)
    ensures remaining > 0 && acked == |plan.fates| ==> Sound(plan, blocks, acked, remaining, InFlight)
    ensures remaining == 0 ==> Sound(plan, blocks, acked, remaining, Done)
  {
  }

  /** The frame the loop builds from its running position and counter is the next one of the plan, if
      the file reaches that far. */
  lemma NextBlock(plan: Plan, blocks: seq<seq<byte>>, acked: nat, remaining: nat)
    requires Underway(plan, blocks, acked, remaining) && remaining > 0 && acked < |plan.fates|
    ensures var pos, size := plan.length - remaining, Min(plan.entry.blockSize, remaining);
            && plan.At(acked + 1) == pos + size
            && (pos + size <= |plan.content| ==>
                  plan.FirstBlocks(acked + 1)
                  == blocks + [[CounterAt(plan.entry.nextCounter, acked)] + plan.content[pos..pos + size]])
            && (plan.fates[acked].FileError? || pos + size > |plan.content| ==>
                  Sound(plan, blocks, acked, remaining, AbortedBy(FileError)))
  {
  }

  /** With the frame sent, its fate decides. */
  lemma StopsOrAdvances(plan: Plan, blocks: seq<seq<byte>>, acked: nat, remaining: nat, sent: seq<seq<byte>>)
    requires Underway(plan, blocks, acked, remaining) && remaining > 0 && acked < |plan.fates|
    requires plan.At(acked + 1) <= |plan.content| && |sent| == acked + 1 && sent == plan.FirstBlocks(acked + 1)
    ensures match plan.fates[acked]
            case FileError => true
            case SendError => Sound(plan, sent, acked, remaining, AbortedBy(SendError))
            case Vanished => Sound(plan, sent, acked, remaining, NoEntry)
            case _ => Underway(plan, sent, acked + 1, plan.length - plan.At(acked + 1))
  {
  }

  lemma NextEntry(plan: Plan, acked: nat, remaining: nat, size: nat)
    requires plan.At(acked + 1) == plan.At(acked) + size && size <= remaining
    ensures var entry := Entry(plan, acked, InFlight);
            MetaData(SaturatingAdd64(entry.acknowledged, size), entry.blockSize, (entry.nextCounter as int + 1) % 0x100,
                     if remaining == size then Finished else entry.status)
            == Entry(plan, acked + 1, Progress(remaining - size))
  {
  }

  /** Finished means: the data bytes are exactly the requested slice, in ceil(length / blockSize)
      blocks; otherwise they are a proper prefix of it. */
  lemma FinishedIsWholeSlice(content: seq<byte>, length: nat, blockSize: nat, acked: nat)
    requires length > 0 && Cut(length, blockSize, acked) <= |content|
    requires acked > 0 ==> Cut(length, blockSize, acked - 1) < length
    ensures var sent := Payload(content, length, blockSize, acked);
            if Cut(length, blockSize, acked) == length
            then sent == content[..length] && blockSize > 0 && acked == CeilDiv(length, blockSize)
            else sent == content[..|sent|] && |sent| < length && (blockSize > 0 ==> acked < CeilDiv(length, blockSize))
  {
    PayloadIsSlice(content, length, blockSize, acked);
    if blockSize > 0 {
      BlocksToCover(length, blockSize, acked);
      if acked > 0 { BlocksToCover(length, blockSize, acked - 1); }
    } else {
      CutIsMultiple(length, blockSize, acked);
    }
  }

  /** Enough replied blocks finish the transfer; a zero block size never makes progress, however many
      blocks are replied to. */
  lemma ProgressNeedsBlockSize(length: nat, blockSize: nat, replied: nat)
    requires length > 0
    ensures blockSize > 0 && replied >= CeilDiv(length, blockSize) ==> Cut(length, blockSize, replied) == length
    ensures blockSize == 0 ==> Cut(length, blockSize, replied) == 0
  {
    if blockSize > 0 {
      BlocksToCover(length, blockSize, replied);
    } else {
      CutIsMultiple(length, blockSize, replied);
    }
  }
}
