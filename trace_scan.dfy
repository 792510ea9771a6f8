/**
 * The trace scanner of gen_outputs.py: it walks the lines of a bus trace,
 * decodes each record line into its sop, eop, valid and payload fields and
 * rebuilds the transactions with the `in_transaction` flag.
 *
 * A line is taken exactly as `readlines()` yields it (a trailing newline, if
 * any, is part of the line); the payload is whatever the clamped slice
 * `[3:35]` of the cleaned line holds.
 */
module TraceScan {
  import opened PyText

  /** One decoded cycle record. */
  datatype Cycle = Cycle(sop: bool, eop: bool, valid: bool, payload: string)

  /** The state of the scan loop: the `in_transaction` flag and the `transactions` list. */
  datatype ScanState = ScanState(inTransaction: bool, transactions: seq<string>)

  /** A line is a record when it starts with '0' or '1'; every other line is skipped. */
  predicate IsRecord(line: string)
  {
    |line| > 0 && (line[0] == '0' || line[0] == '1')
  }

  /** The line with every '_' and then every ' ' removed. */
  function Clean(line: string): (r: string)
    ensures forall i :: 0 <= i < |r| ==> r[i] != '_' && r[i] != ' '
    ensures IsRecord(line) ==> |r| > 0 && r[0] == line[0]
    ensures |r| <= |line|
  {
    var noUnderscore := RemoveChar(line, '_');
    var r := RemoveChar(noUnderscore, ' ');
    assert forall i :: 0 <= i < |r| ==> r[i] != '_' by {
      forall i | 0 <= i < |r| ensures r[i] != '_' {
        var j :| 0 <= j < |noUnderscore| && noUnderscore[j] == r[i];
      }
    }
    r
  }

  /**
   * Cleaning works character by character, so the characters it keeps stay
   * in their original order (with `CleanOne`, this fixes the cleaned line).
   */
  lemma CleanAppend(a: string, b: string)
    ensures Clean(a + b) == Clean(a) + Clean(b)
  {
    RemoveCharAppend(a, b, '_');
    RemoveCharAppend(RemoveChar(a, '_'), RemoveChar(b, '_'), ' ');
  }

  /** A single character is dropped when it is '_' or ' ' and kept otherwise. */
  lemma CleanOne(x: char)
    ensures Clean([x]) == if x == '_' || x == ' ' then [] else [x]
  {
    RemoveCharOne(x, '_');
    if x != '_' {
      RemoveCharOne(x, ' ');
    }
  }

  /** The lines the source can index: a record line must keep at least three characters once cleaned. */
  predicate Decodable(line: string)
  {
    IsRecord(line) ==> |Clean(line)| >= 3
  }

  /** Reads positions 0, 1, 2 and the slice [3:35] of the cleaned line. */
  function Decode(line: string): (c: Cycle)
    requires IsRecord(line) && Decodable(line)
    ensures |c.payload| <= 32
  {
    var l := Clean(line);
    Cycle(l[0] == '1', l[1] == '1', l[2] == '1', Slice(l, 3, 35))
  }

  /**
   * The fields of a decoded record: the three flag bits are the first three
   * characters of the cleaned line, and the payload is what follows them, cut
   * at 32 characters; a short line gives a short payload.
   */
  lemma DecodeFields(line: string)
    requires IsRecord(line) && Decodable(line)
    ensures var c, l := Decode(line), Clean(line);
      && (c.sop <==> line[0] == '1' && l[0] == '1')
      && (c.eop <==> l[1] == '1')
      && (c.valid <==> l[2] == '1')
      && |c.payload| == Min(|l|, 35) - 3
      && c.payload == l[3..Min(|l|, 35)]
  {
  }

  /** A record line that carries a valid sop. */
  predicate StartsTransaction(line: string)
    requires Decodable(line)
  {
    IsRecord(line) && Decode(line).sop && Decode(line).valid
  }

  /** A record line that carries a valid eop. */
  predicate EndsTransaction(line: string)
    requires Decodable(line)
  {
    IsRecord(line) && Decode(line).eop && Decode(line).valid
  }

  /** A record line whose valid bit is set. */
  predicate IsValidCycle(line: string)
    requires Decodable(line)
  {
    IsRecord(line) && Decode(line).valid
  }

  /** The flag is only ever set right after a transaction was appended. */
  predicate Consistent(st: ScanState)
  {
    st.inTransaction ==> |st.transactions| > 0
  }

  const Init := ScanState(false, [])

  /** One iteration of the scan loop: the start check, then the accumulate check, then the end check. */
  function Step(st: ScanState, line: string): (r: ScanState)
    requires Consistent(st) && Decodable(line)
    ensures Consistent(r)
  {
    if !IsRecord(line) then st
    else
      var c := Decode(line);
      var st1 := if c.sop && c.valid then ScanState(true, st.transactions + [""]) else st;
      var st2 :=
        if st1.inTransaction && c.valid then
          var n := |st1.transactions|;
          ScanState(true, st1.transactions[n - 1 := c.payload + st1.transactions[n - 1]])
        else st1;
      if c.eop && c.valid then ScanState(false, st2.transactions) else st2
  }

  /**
   * What one step does to the state: a skipped line changes nothing; a valid
   * sop appends exactly one transaction; only the last transaction can
   * change, and with no transaction open nothing listed changes; a valid eop
   * leaves no transaction open, whatever else the line carries.
   */
  lemma StepEffect(st: ScanState, line: string)
    requires Consistent(st) && Decodable(line)
    ensures var r := Step(st, line);
      && (!IsRecord(line) ==> r == st)
      && |r.transactions| == |st.transactions| + (if StartsTransaction(line) then 1 else 0)
      && (forall k :: 0 <= k < |st.transactions| - 1 ==> r.transactions[k] == st.transactions[k])
      && (!st.inTransaction && !StartsTransaction(line) ==> r.transactions == st.transactions)
      && (r.inTransaction <==> (st.inTransaction || StartsTransaction(line)) && !EndsTransaction(line))
  {
  }

  predicate AllDecodable(lines: seq<string>)
  {
    forall i :: 0 <= i < |lines| ==> Decodable(lines[i])
  }

  /** The state after feeding `lines`, in order, to the loop started in `st`. */
  function Run(st: ScanState, lines: seq<string>): (r: ScanState)
    requires Consistent(st) && AllDecodable(lines)
    ensures Consistent(r)
    ensures |r.transactions| >= |st.transactions|
    decreases |lines|
  {
    if lines == [] then st
    else Step(Run(st, lines[..|lines| - 1]), lines[|lines| - 1])
  }

  /** The state the scan loop of the source ends in; each line adds at most one transaction. */
  function Scan(lines: seq<string>): (r: ScanState)
    requires AllDecodable(lines)
    ensures Consistent(r)
    ensures |r.transactions| <= |lines|
  {
    RunBound(Init, lines);
    Run(Init, lines)
  }

  /** Each line appends at most one transaction. */
  lemma {:induction false} RunBound(st: ScanState, lines: seq<string>)
    requires Consistent(st) && AllDecodable(lines)
    ensures |Run(st, lines).transactions| <= |st.transactions| + |lines|
    decreases |lines|
  {
    if lines != [] {
      RunBound(st, lines[..|lines| - 1]);
    }
  }

  /** The scan loop as the source writes it: a flag, a list, and in-place updates of its last element. */
  method ScanLines(lines: seq<string>) returns (transactions: seq<string>, inTransaction: bool)
    requires AllDecodable(lines)
    ensures ScanState(inTransaction, transactions) == Scan(lines)
  {
    inTransaction := false;
    transactions := [];
    var index := 0;
    while index < |lines|
      invariant 0 <= index <= |lines|
      invariant ScanState(inTransaction, transactions) == Run(Init, lines[..index])
    {
      var line := lines[index];
      assert lines[..index + 1][..index] == lines[..index];
      if |line| > 0 && (line[0] == '1' || line[0] == '0') {
        line := RemoveChar(line, '_');
        line := RemoveChar(line, ' ');
        if line[0] == '1' && line[2] == '1' {
          transactions := transactions + [""];
          inTransaction := true;
        }
        if inTransaction && line[2] == '1' {
          transactions := transactions[|transactions| - 1 := Slice(line, 3, 35) + transactions[|transactions| - 1]];
        }
        if line[1] == '1' && line[2] == '1' {
          inTransaction := false;
        }
      }
      index := index + 1;
    }
    assert lines[..index] == lines;
  }

  // ---------------------------------------------------------------------
  // Properties of the scan

  lemma {:induction false} RunAppend(st: ScanState, a: seq<string>, b: seq<string>)
    requires Consistent(st) && AllDecodable(a) && AllDecodable(b)
    ensures AllDecodable(a + b)
    ensures Run(st, a + b) == Run(Run(st, a), b)
    decreases |b|
  {
    assert AllDecodable(a + b) by {
      forall i | 0 <= i < |a + b| ensures Decodable((a + b)[i]) {
        if i < |a| { assert (a + b)[i] == a[i]; } else { assert (a + b)[i] == b[i - |a|]; }
      }
    }
    if b != [] {
      var ab := a + b;
      assert ab[..|ab| - 1] == a + b[..|b| - 1];
      assert ab[|ab| - 1] == b[|b| - 1];
      RunAppend(st, a, b[..|b| - 1]);
    } else {
      assert a + b == a;
    }
  }

  /** The record lines of a trace, in order. */
  function Records(lines: seq<string>): (r: seq<string>)
    ensures |r| <= |lines|
    ensures forall i :: 0 <= i < |r| ==> IsRecord(r[i]) && r[i] in lines
  {
    if lines == [] then []
    else
      var init := Records(lines[..|lines| - 1]);
      var last := lines[|lines| - 1];
      assert forall i :: 0 <= i < |init| ==> init[i] in lines by {
        forall i | 0 <= i < |init| ensures init[i] in lines {
          assert init[i] in lines[..|lines| - 1];
        }
      }
      if IsRecord(last) then init + [last] else init
  }

  /**
   * Filtering works line by line: on a concatenation it is the filtered parts,
   * joined in the same order. With `RecordsOne` this says every record line is
   * kept, in trace order.
   */
  lemma {:induction false} RecordsAppend(a: seq<string>, b: seq<string>)
    ensures Records(a + b) == Records(a) + Records(b)
    decreases |b|
  {
    if b == [] {
      assert a + b == a;
    } else {
      var ab := a + b;
      assert ab[..|ab| - 1] == a + b[..|b| - 1];
      assert ab[|ab| - 1] == b[|b| - 1];
      RecordsAppend(a, b[..|b| - 1]);
    }
  }

  /** A single line is kept exactly when it is a record. */
  lemma RecordsOne(line: string)
    ensures Records([line]) == if IsRecord(line) then [line] else []
  {
    assert [line][..0] == [];
  }

  /** Every record line of the trace survives the filter. */
  lemma {:induction false} RecordsKeepAll(lines: seq<string>, i: nat)
    requires i < |lines| && IsRecord(lines[i])
    ensures lines[i] in Records(lines)
  {
    assert lines == lines[..i] + [lines[i]] + lines[i + 1..];
    RecordsAppend(lines[..i] + [lines[i]], lines[i + 1..]);
    RecordsAppend(lines[..i], [lines[i]]);
    RecordsOne(lines[i]);
  }

  /** Lines that do not start with '0' or '1' have no effect on the scan. */
  lemma {:induction false} ScanIgnoresNonRecords(lines: seq<string>)
    requires AllDecodable(lines)
    ensures AllDecodable(Records(lines))
    ensures Scan(Records(lines)) == Scan(lines)
    decreases |lines|
  {
    if lines != [] {
      var init := lines[..|lines| - 1];
      var last := lines[|lines| - 1];
      assert forall i :: 0 <= i < |Records(lines)| ==> Records(lines)[i] in lines;
      ScanIgnoresNonRecords(init);
      if IsRecord(last) {
        var rs := Records(init) + [last];
        assert rs[..|rs| - 1] == Records(init);
      }
    }
  }

  /** How many lines carry a valid sop. */
  function CountStarts(lines: seq<string>): nat
    requires AllDecodable(lines)
  {
    if lines == [] then 0
    else CountStarts(lines[..|lines| - 1]) + (if StartsTransaction(lines[|lines| - 1]) then 1 else 0)
  }

  /** Exactly one transaction per line carrying a valid sop. */
  lemma {:induction false} TransactionCount(lines: seq<string>)
    requires AllDecodable(lines)
    ensures |Scan(lines).transactions| == CountStarts(lines)
    decreases |lines|
  {
    if lines != [] {
      TransactionCount(lines[..|lines| - 1]);
    }
  }

  /**
   * Only the last transaction is ever changed, so everything before it is final;
   * when no transaction is open, every transaction already listed is final; and
   * the flag can only be set again by appending a new transaction. An
   * unterminated transaction is therefore never dropped.
   */
  lemma {:induction false} EarlierTransactionsKept(st: ScanState, lines: seq<string>)
    requires Consistent(st) && AllDecodable(lines)
    ensures var r := Run(st, lines);
      forall k :: 0 <= k < |st.transactions| - 1 ==> r.transactions[k] == st.transactions[k]
    ensures var r := Run(st, lines);
      !st.inTransaction ==>
        r.transactions[..|st.transactions|] == st.transactions &&
        (r.inTransaction ==> |r.transactions| > |st.transactions|)
    decreases |lines|
  {
    if lines != [] {
      var init := lines[..|lines| - 1];
      EarlierTransactionsKept(st, init);
    }
  }

  /** The payloads of the valid record lines, in trace order. */
  function Payloads(lines: seq<string>): seq<string>
    requires AllDecodable(lines)
  {
    if lines == [] then []
    else
      var last := lines[|lines| - 1];
      Payloads(lines[..|lines| - 1]) + (if IsValidCycle(last) then [Decode(last).payload] else [])
  }

  /** A line that neither opens nor closes a transaction. */
  predicate Continues(line: string)
    requires Decodable(line)
  {
    !StartsTransaction(line) && !EndsTransaction(line)
  }

  /** Inside an open transaction, each valid cycle's payload goes in FRONT of what is there. */
  lemma {:induction false} AccumulateBody(st: ScanState, body: seq<string>)
    requires Consistent(st) && st.inTransaction && AllDecodable(body)
    requires forall i :: 0 <= i < |body| ==> Continues(body[i])
    ensures var n := |st.transactions|;
      Run(st, body) ==
        ScanState(true, st.transactions[n - 1 := Concat(Reverse(Payloads(body))) + st.transactions[n - 1]])
    decreases |body|
  {
    var ts := st.transactions;
    var n := |ts|;
    if body == [] {
      assert Concat(Reverse(Payloads(body))) + ts[n - 1] == ts[n - 1];
      assert ts[n - 1 := ts[n - 1]] == ts;
    } else {
      var init := body[..|body| - 1];
      var last := body[|body| - 1];
      assert AllDecodable(init) && forall i :: 0 <= i < |init| ==> Continues(init[i]) by {
        forall i | 0 <= i < |init| ensures Decodable(init[i]) && Continues(init[i]) {
          assert init[i] == body[i];
        }
      }
      assert Decodable(last) && Continues(last);
      AccumulateBody(st, init);
      var x := Concat(Reverse(Payloads(init)));
      var s0 := ScanState(true, ts[n - 1 := x + ts[n - 1]]);
      assert Run(st, body) == Step(s0, last);
      var p := if IsValidCycle(last) then Decode(last).payload else "";
      PrependTwice(ts, x, last);
      PayloadsSnoc(init, last);
    }
  }

  lemma PrependTwice(ts: seq<string>, x: string, line: string)
    requires |ts| > 0 && Decodable(line) && Continues(line)
    ensures var n := |ts|;
      var p := if IsValidCycle(line) then Decode(line).payload else "";
      Step(ScanState(true, ts[n - 1 := x + ts[n - 1]]), line) == ScanState(true, ts[n - 1 := (p + x) + ts[n - 1]])
  {
    var n := |ts|;
    var p := if IsValidCycle(line) then Decode(line).payload else "";
    StepContinues(ScanState(true, ts[n - 1 := x + ts[n - 1]]), line);
    assert p + (x + ts[n - 1]) == (p + x) + ts[n - 1];
  }

  /** Adding one line at the end of a run puts its payload (if valid) in front of the reversed concatenation. */
  lemma PayloadsSnoc(init: seq<string>, last: string)
    requires AllDecodable(init) && Decodable(last)
    ensures AllDecodable(init + [last])
    ensures Concat(Reverse(Payloads(init + [last]))) ==
      (if IsValidCycle(last) then Decode(last).payload else "") + Concat(Reverse(Payloads(init)))
  {
    var body := init + [last];
    assert AllDecodable(body) by {
      forall i | 0 <= i < |body| ensures Decodable(body[i]) {
        if i < |init| { assert body[i] == init[i]; }
      }
    }
    assert body[..|body| - 1] == init;
    var ps := Payloads(init);
    if IsValidCycle(last) {
      var p := Decode(last).payload;
      assert Payloads(body) == ps + [p];
      assert Reverse(ps + [p]) == [p] + Reverse(ps);
      assert ([p] + Reverse(ps))[1..] == Reverse(ps);
    } else {
      assert Payloads(body) == ps;
    }
  }

  /**
   * A valid cycle that does not open a new transaction, read while one is
   * open, puts its payload in front of the last transaction; a cleaned line
   * of at least 35 characters makes it exactly 32 characters longer.
   */
  lemma ValidCycleGrows(st: ScanState, line: string)
    requires Consistent(st) && st.inTransaction && Decodable(line)
    requires IsValidCycle(line) && !StartsTransaction(line)
    ensures var n, r := |st.transactions|, Step(st, line);
      |r.transactions| == n &&
      r.transactions[n - 1] == Decode(line).payload + st.transactions[n - 1] &&
      (|Clean(line)| >= 35 ==> |r.transactions[n - 1]| == |st.transactions[n - 1]| + 32)
  {
    DecodeFields(line);
  }

  /** One line inside an open transaction that neither starts nor ends one. */
  lemma StepContinues(st: ScanState, line: string)
    requires Consistent(st) && st.inTransaction && Decodable(line) && Continues(line)
    ensures var n := |st.transactions|;
      Step(st, line) == ScanState(true, st.transactions[n - 1 :=
        (if IsValidCycle(line) then Decode(line).payload else "") + st.transactions[n - 1]])
  {
    var ts := st.transactions;
    var n := |ts|;
    if IsValidCycle(line) {
      var c := Decode(line);
      assert !c.sop && !c.eop;
      assert Step(st, line) == ScanState(true, ts[n - 1 := c.payload + ts[n - 1]]);
    } else {
      assert "" + ts[n - 1] == ts[n - 1];
      assert ts[n - 1 := ts[n - 1]] == ts;
      if IsRecord(line) {
        assert !Decode(line).valid;
      }
      assert Step(st, line) == st;
    }
  }

  /**
   * A whole transaction: a valid sop line, lines that neither start nor end
   * one, and a valid eop line. It becomes one new, closed transaction that
   * holds the valid cycles' payloads concatenated in reverse trace order.
   */
  lemma TransactionContents(st: ScanState, first: string, body: seq<string>, last: string)
    requires Consistent(st) && Decodable(first) && Decodable(last) && AllDecodable(body)
    requires StartsTransaction(first) && !EndsTransaction(first)
    requires forall i :: 0 <= i < |body| ==> Continues(body[i])
    requires EndsTransaction(last) && !StartsTransaction(last)
    ensures AllDecodable([first] + body + [last])
    ensures Run(st, [first] + body + [last]) ==
      ScanState(false, st.transactions + [Concat(Reverse(Payloads([first] + body + [last])))])
  {
    var ts := st.transactions;
    var n := |ts|;
    OpenAndAccumulate(st, first, body);
    var y := Concat(Reverse(Payloads([first] + body)));
    var s2 := ScanState(true, ts + [y]);
    RunAppend(st, [first] + body, [last]);
    assert AllDecodable([last]);
    assert Run(s2, [last]) == Step(s2, last) by { assert [last][..0] == []; }
    StepEnd(s2, last);
    PayloadsSnoc([first] + body, last);
    SnocUpdate(ts, y, Decode(last).payload + y);
  }

  /** The open part of a transaction: its sop line and the lines after it that neither start nor end one. */
  lemma OpenAndAccumulate(st: ScanState, first: string, body: seq<string>)
    requires Consistent(st) && Decodable(first) && AllDecodable(body)
    requires StartsTransaction(first) && !EndsTransaction(first)
    requires forall i :: 0 <= i < |body| ==> Continues(body[i])
    ensures AllDecodable([first] + body)
    ensures Run(st, [first] + body) ==
      ScanState(true, st.transactions + [Concat(Reverse(Payloads([first] + body)))])
  {
    var ts := st.transactions;
    var n := |ts|;
    var p0 := Decode(first).payload;
    var x := Concat(Reverse(Payloads(body)));
    assert AllDecodable([first]);
    assert Run(st, [first]) == Step(st, first) by { assert [first][..0] == []; }
    StepStart(st, first);
    RunAppend(st, [first], body);
    AccumulateBody(ScanState(true, ts + [p0]), body);
    SnocUpdate(ts, p0, x + p0);
    PayloadsCons(first, body);
  }

  /** A valid sop that is not also a valid eop opens a transaction that starts with its own payload. */
  lemma StepStart(st: ScanState, line: string)
    requires Consistent(st) && Decodable(line)
    requires StartsTransaction(line) && !EndsTransaction(line)
    ensures Step(st, line) == ScanState(true, st.transactions + [Decode(line).payload])
  {
    var ts := st.transactions;
    var p := Decode(line).payload;
    assert p + "" == p;
    SnocUpdate(ts, "", p);
  }

  /** A valid eop that is not also a valid sop closes the open transaction after putting its payload in front. */
  lemma StepEnd(st: ScanState, line: string)
    requires Consistent(st) && st.inTransaction && Decodable(line)
    requires EndsTransaction(line) && !StartsTransaction(line)
    ensures var n := |st.transactions|;
      Step(st, line) == ScanState(false, st.transactions[n - 1 := Decode(line).payload + st.transactions[n - 1]])
  {
  }

  /** A valid first line contributes the LAST piece of the reversed concatenation. */
  lemma PayloadsCons(first: string, body: seq<string>)
    requires Decodable(first) && IsValidCycle(first) && AllDecodable(body)
    ensures AllDecodable([first] + body)
    ensures Concat(Reverse(Payloads([first] + body))) == Concat(Reverse(Payloads(body))) + Decode(first).payload
  {
    var p0 := Decode(first).payload;
    assert AllDecodable([first]);
    PayloadsAppend([first], body);
    assert Payloads([first]) == [p0] by { assert [first][..0] == []; }
    var pb := Payloads(body);
    assert Reverse([p0] + pb) == Reverse(pb) + [p0];
    ConcatAppend(Reverse(pb), [p0]);
    assert Concat([p0]) == p0 + Concat([]);
  }

  lemma {:induction false} PayloadsAppend(a: seq<string>, b: seq<string>)
    requires AllDecodable(a) && AllDecodable(b)
    ensures AllDecodable(a + b)
    ensures Payloads(a + b) == Payloads(a) + Payloads(b)
    decreases |b|
  {
    if b == [] {
      assert a + b == a;
    } else {
      var ab := a + b;
      assert ab[..|ab| - 1] == a + b[..|b| - 1];
      PayloadsAppend(a, b[..|b| - 1]);
    }
  }

  /** A valid cycle that carries both sop and eop is a transaction of its own payload, already closed. */
  lemma SingleCycleTransaction(st: ScanState, line: string)
    requires Consistent(st) && Decodable(line)
    requires StartsTransaction(line) && EndsTransaction(line)
    ensures Step(st, line) == ScanState(false, st.transactions + [Decode(line).payload])
  {
    assert Decode(line).payload + "" == Decode(line).payload;
  }

  /** A sop while a transaction is still open leaves the open one in the list, as it stands. */
  lemma RestartKeepsOpenTransaction(st: ScanState, line: string)
    requires Consistent(st) && Decodable(line)
    requires st.inTransaction && StartsTransaction(line)
    ensures Step(st, line).transactions[..|st.transactions|] == st.transactions
  {
  }
}
