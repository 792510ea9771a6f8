/**
 * gen_outputs.py end to end, without its files: the lines of the input trace
 * go through the scan loop, and the transactions it collects go through the
 * packet loop. The result is the list of output lines the source would write
 * (joined with newlines, after its header), or the error that stops it.
 */
module Transcoder {
  import opened PyText
  import opened TraceScan
  import opened Rechunk
  import opened PacketList

  /**
   * The output lines for a trace. They exist exactly when every transaction
   * the scan collects is non-empty; otherwise the error names the first empty
   * one.
   */
  function Transcode(lines: seq<string>): (r: Result<seq<string>>)
    requires AllDecodable(lines)
    ensures var ts := Scan(lines).transactions;
      r.Ok? <==> forall k :: 0 <= k < |ts| ==> ts[k] != []
    ensures var ts := Scan(lines).transactions;
      r.Err? ==> r.error.index < |ts| && ts[r.error.index] == [] &&
                 forall k :: 0 <= k < r.error.index ==> ts[k] != []
  {
    PacketsFailure(Scan(lines).transactions);
    Packets(Scan(lines).transactions)
  }

  /** The script body: the scan loop, then the packet loop. */
  method GenerateOutputs(lines: seq<string>) returns (r: Result<seq<string>>)
    requires AllDecodable(lines)
    ensures r == Transcode(lines)
  {
    var transactions, inTransaction := ScanLines(lines);
    r := BuildPackets(transactions);
  }

  /**
   * A successful run writes one block per sop cycle: two header lines each,
   * plus every line the re-chunker emits.
   */
  lemma TranscodeLength(lines: seq<string>)
    requires AllDecodable(lines) && Transcode(lines).Ok?
    ensures |Transcode(lines).value| == TotalChunks(Scan(lines).transactions) + 2 * CountStarts(lines)
  {
    PacketsLength(Scan(lines).transactions);
    TransactionCount(lines);
  }

  /**
   * A single record whose sop, eop and valid bits are all set and which
   * carries 32 payload characters becomes packet #0 holding that payload's
   * emitted lines.
   */
  lemma SingleCycleTrace(p: string)
    requires |p| == 32 && forall i :: 0 <= i < |p| ==> p[i] != '_' && p[i] != ' '
    ensures AllDecodable(["111" + p])
    ensures Transcode(["111" + p]) == Ok(["", "//Packet #0"] + Emit(p))
  {
    var line := "111" + p;
    FlagsAllSet(line);
    SingleCycleTransaction(Init, line);
    ScanOne(line);
    assert Scan([line]).transactions == [p];
    PacketsOne(p);
    LabelZero();
  }

  /** A record opening with three '1' flags starts and ends a transaction and carries the rest as payload. */
  lemma FlagsAllSet(line: string)
    requires 3 <= |line| <= 35 && line[..3] == "111"
    requires forall i :: 0 <= i < |line| ==> line[i] != '_' && line[i] != ' '
    ensures IsRecord(line) && Decodable(line) && Decode(line) == Cycle(true, true, true, line[3..])
  {
    CleanRecord(line);
    assert line[0] == '1' && line[1] == '1' && line[2] == '1';
  }

  lemma ScanOne(line: string)
    requires Decodable(line)
    ensures AllDecodable([line]) && Scan([line]) == Step(Init, line)
  {
    assert [line][..0] == [];
    assert Run(Init, [line]) == Step(Run(Init, []), line);
  }

  lemma PacketsOne(t: string)
    ensures Packets([t]) == if t == [] then Err(EmptyTransaction(0)) else Ok(Block(t, 0))
  {
    assert [t][..0] == [];
    assert Packets([]) == Ok([]);
    if t != [] {
      assert [] + Block(t, 0) == Block(t, 0);
    }
  }

  lemma LabelZero()
    ensures Label(0) == "//Packet #0"
  {
    assert DecimalString(0) == "0";
  }

  /** A line of digits only is its own cleaned form. */
  lemma CleanRecord(line: string)
    requires forall i :: 0 <= i < |line| ==> line[i] != '_' && line[i] != ' '
    ensures Clean(line) == line
  {
    RemoveAbsent(line, '_');
    RemoveAbsent(line, ' ');
  }

  /**
   * A valid sop-and-eop cycle cut short to its three flag bits opens and
   * closes a transaction with no payload, and the run stops at it.
   */
  lemma EmptyCycleFails()
    ensures AllDecodable(["111"])
    ensures Transcode(["111"]) == Err(EmptyTransaction(0))
  {
    var line := "111";
    FlagsAllSet(line);
    SingleCycleTransaction(Init, line);
    ScanOne(line);
    PacketsOne("");
  }
}
