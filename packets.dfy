/**
 * The packet loop of gen_outputs.py: for every transaction in order it appends
 * a blank line, the label `//Packet #<pos>` and the transaction's emitted
 * lines to `packets`, then advances `pos` by the number of lines emitted. An
 * empty transaction makes the source fail at `chunks[0]`, which ends the run
 * before anything is written; here that is the error `EmptyTransaction`.
 */
module PacketList {
  import opened PyText
  import opened Rechunk

  datatype Error = EmptyTransaction(index: nat)

  datatype Result<T> = Ok(value: T) | Err(error: Error)

  /** The label line `"//Packet #" + str(pos)`: the fixed text, then decimal digits. */
  function Label(pos: nat): (l: string)
    ensures |l| > 10 && l[..10] == "//Packet #" && IsDigits(l[10..])
  {
    "//Packet #" + DecimalString(pos)
  }

  /** The label's number reads back as `pos`. */
  lemma LabelNumber(pos: nat)
    ensures DecimalValue(Label(pos)[10..]) == pos
  {
    var l := Label(pos);
    assert l[10..] == DecimalString(pos);
    DecimalRoundTrip(pos);
  }

  /** The total number of lines emitted for `ts`: the running `pos` after them. */
  function TotalChunks(ts: seq<string>): nat
  {
    if ts == [] then 0 else TotalChunks(ts[..|ts| - 1]) + ChunkCount(|ts[|ts| - 1]|)
  }

  /** A successful list is the list for all but the last transaction followed by the last one's block. */
  lemma PacketsSnoc(ts: seq<string>)
    requires Packets(ts).Ok? && |ts| > 0
    ensures var n := |ts| - 1;
      Packets(ts[..n]).Ok? && |ts[n]| > 0 &&
      Packets(ts).value == Packets(ts[..n]).value + Block(ts[n], TotalChunks(ts[..n]))
  {
  }

  /** The list for all but the last transaction is a prefix of the whole list. */
  lemma PacketsPrefix(ts: seq<string>)
    requires Packets(ts).Ok? && |ts| > 0
    ensures Packets(ts[..|ts| - 1]).Ok? && IsPrefix(Packets(ts[..|ts| - 1]).value, Packets(ts).value)
  {
    PacketsSnoc(ts);
  }

  /** The block the source appends for one transaction when `pos` lines were emitted before it. */
  function Block(t: string, pos: nat): (b: seq<string>)
    requires |t| > 0
    ensures |b| == 2 + ChunkCount(|t|)
    ensures b[0] == "" && b[1] == Label(pos)
  {
    ["", Label(pos)] + Emit(t)
  }

  /** The `packets` list the source builds from `ts`, or the failure at the first empty transaction. */
  function Packets(ts: seq<string>): (r: Result<seq<string>>)
    ensures r.Err? ==> r.error.index < |ts| && ts[r.error.index] == []
  {
    if ts == [] then Ok([])
    else
      var n := |ts| - 1;
      match Packets(ts[..n])
      case Err(e) => Err(e)
      case Ok(p) =>
        if |ts[n]| == 0 then Err(EmptyTransaction(n))
        else Ok(p + Block(ts[n], TotalChunks(ts[..n])))
  }

  /** The source's packet loop, with the running position `pos`. */
  method BuildPackets(transactions: seq<string>) returns (r: Result<seq<string>>)
    ensures r == Packets(transactions)
  {
    var packets: seq<string> := [];
    var pos: nat := 0;
    var index := 0;
    while index < |transactions|
      invariant 0 <= index <= |transactions|
      invariant Packets(transactions[..index]) == Ok(packets)
      invariant pos == TotalChunks(transactions[..index])
    {
      var transaction := transactions[index];
      if |transaction| == 0 {
        r := Err(EmptyTransaction(index));
        PacketsStop(transactions, index);
        return;
      }
      var chunks := FrameTransaction(transaction);
      PacketsStep(transactions, index, packets, pos);
      packets := packets + ["", "//Packet #" + DecimalString(pos)] + chunks;
      pos := pos + |chunks|;
      index := index + 1;
    }
    assert transactions[..index] == transactions;
    r := Ok(packets);
  }

  /** One turn of the packet loop on a non-empty transaction. */
  lemma PacketsStep(ts: seq<string>, i: nat, packets: seq<string>, pos: nat)
    requires i < |ts| && |ts[i]| > 0
    requires Packets(ts[..i]) == Ok(packets) && pos == TotalChunks(ts[..i])
    ensures Packets(ts[..i + 1]) == Ok(packets + ["", "//Packet #" + DecimalString(pos)] + Emit(ts[i]))
    ensures TotalChunks(ts[..i + 1]) == pos + |Emit(ts[i])|
  {
    var longer := ts[..i + 1];
    assert longer[..i] == ts[..i] && longer[i] == ts[i];
    assert packets + ["", Label(pos)] + Emit(ts[i]) == packets + Block(ts[i], pos);
  }

  /** The packet loop stops at the first empty transaction, and that is the run's result. */
  lemma PacketsStop(ts: seq<string>, i: nat)
    requires i < |ts| && |ts[i]| == 0 && Packets(ts[..i]).Ok?
    ensures Packets(ts) == Err(EmptyTransaction(i))
  {
    assert ts[..i + 1][..i] == ts[..i];
    FailureSticks(ts, i + 1);
  }

  /** Once a prefix fails, every longer prefix fails with the same error. */
  lemma {:induction false} FailureSticks(ts: seq<string>, k: nat)
    requires k <= |ts| && Packets(ts[..k]).Err?
    ensures Packets(ts) == Packets(ts[..k])
    decreases |ts| - k
  {
    if k < |ts| {
      assert ts[..k + 1][..k] == ts[..k];
      FailureSticks(ts, k + 1);
    } else {
      assert ts[..k] == ts;
    }
  }

  // ---------------------------------------------------------------------
  // Properties of the packet list

  /**
   * The packet list fails exactly when some transaction is empty, and then it
   * names the first empty one.
   */
  lemma {:induction false} PacketsFailure(ts: seq<string>)
    ensures Packets(ts).Err? <==> exists k :: 0 <= k < |ts| && ts[k] == []
    ensures Packets(ts).Err? ==>
      var i := Packets(ts).error.index;
      i < |ts| && ts[i] == [] && forall k :: 0 <= k < i ==> ts[k] != []
    decreases |ts|
  {
    if ts != [] {
      var n := |ts| - 1;
      var init := ts[..n];
      PacketsFailure(init);
      assert forall k :: 0 <= k < n ==> init[k] == ts[k];
      if Packets(init).Err? {
        assert Packets(ts) == Packets(init);
        var k :| 0 <= k < n && init[k] == [];
        assert ts[k] == [];
      } else if ts[n] == [] {
        assert Packets(ts) == Err(EmptyTransaction(n));
      } else {
        assert Packets(ts).Ok?;
        assert forall k :: 0 <= k < |ts| ==> ts[k] != [];
      }
    }
  }

  /**
   * A successful packet list holds, per transaction, exactly its chunk count
   * plus two entries; transaction k's block starts after the blocks of the k
   * transactions before it and is a blank line, the label carrying the
   * number of chunks emitted before it, and the transaction's emitted lines.
   */
  lemma PacketsLayout(ts: seq<string>, k: nat)
    requires Packets(ts).Ok? && k < |ts|
    ensures |Packets(ts).value| == TotalChunks(ts) + 2 * |ts|
    ensures |ts[k]| > 0
    ensures |Block(ts[k], TotalChunks(ts[..k]))| == 2 + ChunkCount(|ts[k]|)
    ensures Occurs(Block(ts[k], TotalChunks(ts[..k])), Packets(ts).value, Offset(ts, k))
  {
    PacketsLength(ts);
    BlockPlacement(ts, k);
  }

  lemma BlockPlacement(ts: seq<string>, k: nat)
    requires Packets(ts).Ok? && k < |ts|
    ensures |ts[k]| > 0
    ensures Occurs(Block(ts[k], TotalChunks(ts[..k])), Packets(ts).value, Offset(ts, k))
  {
    PacketsPrefixes(ts, k + 1);
    PrefixThenBlock(ts, k);
    BlockInPrefix(Packets(ts).value, Packets(ts[..k]).value, Block(ts[k], TotalChunks(ts[..k])));
  }

  /** The list for the first k+1 transactions is the one for the first k followed by block k. */
  lemma PrefixThenBlock(ts: seq<string>, k: nat)
    requires k < |ts| && Packets(ts[..k + 1]).Ok?
    ensures Packets(ts[..k]).Ok? && |ts[k]| > 0
    ensures |Packets(ts[..k]).value| == Offset(ts, k)
    ensures Packets(ts[..k + 1]).value == Packets(ts[..k]).value + Block(ts[k], TotalChunks(ts[..k]))
  {
    var pre := ts[..k + 1];
    PacketsSnoc(pre);
    assert pre[..k] == ts[..k] && pre[k] == ts[k];
    PacketsLength(ts[..k]);
  }

  /** `b` appears in `p` starting at index `off`. */
  ghost predicate Occurs<T>(b: seq<T>, p: seq<T>, off: nat)
  {
    off + |b| <= |p| && p[off .. off + |b|] == b
  }

  /** The list for every prefix of the transactions is a prefix of the whole list. */
  lemma {:induction false} PacketsPrefixes(ts: seq<string>, m: nat)
    requires Packets(ts).Ok? && m <= |ts|
    ensures Packets(ts[..m]).Ok? && IsPrefix(Packets(ts[..m]).value, Packets(ts).value)
    decreases |ts|
  {
    if m == |ts| {
      assert ts[..m] == ts;
    } else {
      var init := ts[..|ts| - 1];
      PacketsPrefix(ts);
      PacketsPrefixes(init, m);
      assert init[..m] == ts[..m];
      PrefixTrans(Packets(ts[..m]).value, Packets(init).value, Packets(ts).value);
    }
  }

  ghost predicate IsPrefix<T>(a: seq<T>, b: seq<T>)
  {
    |a| <= |b| && a == b[..|a|]
  }

  lemma PrefixTrans<T>(a: seq<T>, b: seq<T>, c: seq<T>)
    requires IsPrefix(a, b) && IsPrefix(b, c)
    ensures IsPrefix(a, c)
  {
  }

  /** A block appended to a prefix of the list sits right after that prefix. */
  lemma BlockInPrefix<T>(p: seq<T>, a: seq<T>, b: seq<T>)
    requires IsPrefix(a + b, p)
    ensures Occurs(b, p, |a|)
  {
    forall i | 0 <= i < |b|
      ensures p[|a| + i] == b[i]
    {
      assert p[|a| + i] == (a + b)[|a| + i];
    }
  }

  /** The blank line and the label that open transaction k's block. */
  lemma PacketHeader(ts: seq<string>, k: nat)
    requires Packets(ts).Ok? && k < |ts|
    ensures Offset(ts, k) + 1 < |Packets(ts).value|
    ensures Packets(ts).value[Offset(ts, k)] == ""
    ensures Packets(ts).value[Offset(ts, k) + 1] == Label(TotalChunks(ts[..k]))
  {
    BlockPlacement(ts, k);
    HeaderLines(Block(ts[k], TotalChunks(ts[..k])), Packets(ts).value, Offset(ts, k));
  }

  /** Where transaction k's block starts: after k blocks of two header lines plus their chunks. */
  function Offset(ts: seq<string>, k: nat): nat
    requires k <= |ts|
  {
    TotalChunks(ts[..k]) + 2 * k
  }

  lemma HeaderLines(b: seq<string>, p: seq<string>, off: nat)
    requires Occurs(b, p, off) && |b| >= 2
    ensures off + 1 < |p| && p[off] == b[0] && p[off + 1] == b[1]
  {
    OccursAt(b, p, off, 0);
    OccursAt(b, p, off, 1);
  }

  lemma OccursAt<T>(b: seq<T>, p: seq<T>, off: nat, i: nat)
    requires Occurs(b, p, off) && i < |b|
    ensures off + i < |p| && p[off + i] == b[i]
  {
    assert p[off .. off + |b|][i] == p[off + i];
  }

  lemma PacketsLength(ts: seq<string>)
    requires Packets(ts).Ok?
    ensures |Packets(ts).value| == TotalChunks(ts) + 2 * |ts|
    ensures forall k :: 0 <= k < |ts| ==> |ts[k]| > 0
  {
    PacketsFailure(ts);
    PacketsSize(ts);
  }

  lemma {:induction false} PacketsSize(ts: seq<string>)
    requires Packets(ts).Ok?
    ensures |Packets(ts).value| == TotalChunks(ts) + 2 * |ts|
    decreases |ts|
  {
    if ts != [] {
      PacketsSnoc(ts);
      PacketsSize(ts[..|ts| - 1]);
    }
  }
}
