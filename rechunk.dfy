/**
 * The packet re-chunker of gen_outputs.py, for one transaction string: split
 * it into a short leading group of `len % 7` characters (when non-zero) and
 * contiguous 7-character groups, left-pad the leading group with '0's, tag it
 * with the eop prefix `0_1_`, tag the last group with the sop prefix `1_0_`
 * and the groups between with `0_0_`, then reverse the list so that the
 * least significant group is emitted first.
 */
module Rechunk {
  import opened PyText

  const PacketSize: nat := 7
  const SopTag := "1_0_"
  const EopTag := "0_1_"
  const MidTag := "0_0_"

  /** Number of packets for a transaction of length `len`: the ceiling of len / 7. */
  function ChunkCount(len: nat): nat
  {
    (len + 6) / 7
  }

  /** A string whose length is a multiple of 7, cut into its consecutive 7-character words. */
  function Words(s: string): (ws: seq<string>)
    requires |s| % 7 == 0
    ensures |ws| == |s| / 7
    decreases |s|
  {
    if s == [] then [] else [s[..7]] + Words(s[7..])
  }

  /** Word k is the k-th block of seven characters. */
  lemma {:induction false} WordsAt(s: string, k: nat)
    requires |s| % 7 == 0 && k < |s| / 7
    ensures Words(s)[k] == s[7 * k .. 7 * k + 7]
    decreases |s|
  {
    if k > 0 {
      WordsAt(s[7..], k - 1);
    }
  }

  /** Joining the words gives the string back. */
  lemma {:induction false} WordsConcat(s: string)
    requires |s| % 7 == 0
    ensures Concat(Words(s)) == s
    decreases |s|
  {
    if s != [] {
      WordsConcat(s[7..]);
      assert s[..7] + s[7..] == s;
    }
  }

  /** The `chunks` list before framing: the short leading group, if any, then the 7-character groups. */
  function Split(t: string): (gs: seq<string>)
    ensures |gs| == ChunkCount(|t|)
  {
    var extra := |t| % 7;
    (if extra != 0 then [Slice(t, 0, extra)] else []) + Words(t[extra..])
  }

  /**
   * The groups of a transaction join back to it; the leading group holds
   * len % 7 characters, or seven when 7 divides len; every other group holds
   * seven.
   */
  lemma SplitShape(t: string)
    ensures Concat(Split(t)) == t
    ensures var gs := Split(t);
      && (|gs| > 0 ==> |gs[0]| == (if |t| % 7 != 0 then |t| % 7 else 7))
      && forall k :: 1 <= k < |gs| ==> |gs[k]| == 7
  {
    var extra := |t| % 7;
    var lead := if extra != 0 then [Slice(t, 0, extra)] else [];
    var ws := Words(t[extra..]);
    ConcatAppend(lead, ws);
    WordsConcat(t[extra..]);
    assert Concat(lead) == t[..extra] by {
      if extra != 0 { assert Concat(lead) == t[..extra] + Concat([]); }
    }
    assert t[..extra] + t[extra..] == t;
    forall k | 0 <= k < |ws| ensures |ws[k]| == 7 {
      WordsAt(t[extra..], k);
    }
    if extra == 0 && |ws| > 0 {
      WordsAt(t[extra..], 0);
    }
  }

  /** How many '0's `'0' * (7 - len)` yields in Python (a negative count gives the empty string). */
  function FillerWidth(len: nat): nat
  {
    if len < 7 then 7 - len else 0
  }

  /**
   * The `chunks` list after the three rewrites of the source: chunks[0] gets
   * the filler and `0_1_`, then chunks[-1] gets `1_0_` (on top of that when it
   * is the same chunk), then every chunk strictly between gets `0_0_`.
   */
  function Frame(gs: seq<string>): (cs: seq<string>)
    requires |gs| > 0
    ensures |cs| == |gs|
  {
    var n := |gs|;
    seq(n, k requires 0 <= k < n =>
      (if k == n - 1 then SopTag else "") +
      (if k == 0 then EopTag + Zeros(FillerWidth(|gs[0]|)) else if k < n - 1 then MidTag else "") +
      gs[k])
  }

  /** The lines the source emits for one non-empty transaction, in output order: one per group. */
  function Emit(t: string): (r: seq<string>)
    requires |t| > 0
    ensures |r| == ChunkCount(|t|)
  {
    Reverse(Frame(Split(t)))
  }

  /** The per-transaction body of the source's packet loop: split, pad and frame, reverse. */
  method FrameTransaction(transaction: string) returns (lines: seq<string>)
    requires |transaction| > 0
    ensures lines == Emit(transaction)
  {
    var groups := SplitGroups(transaction);
    var n := |groups|;
    var chunks := new string[n](k requires 0 <= k < n => groups[k]);
    assert chunks[..] == groups;
    FrameChunks(chunks);
    ReverseChunks(chunks);
    lines := chunks[..];
  }

  /** `chunks = [transaction[0:extra_bits]]` (or `[]`) extended by the list comprehension over `range(extra_bits, len, 7)`. */
  method SplitGroups(transaction: string) returns (groups: seq<string>)
    ensures groups == Split(transaction)
  {
    var extraBits := |transaction| % PacketSize;
    groups := if extraBits != 0 then [Slice(transaction, 0, extraBits)] else [];
    var i := extraBits;
    RestWhole(|transaction|);
    while i < |transaction|
      invariant extraBits <= i <= |transaction| && (|transaction| - i) % 7 == 0
      invariant groups + Words(transaction[i..]) == Split(transaction)
      decreases |transaction| - i
    {
      GroupStep(transaction, i);
      groups := groups + [Slice(transaction, i, i + PacketSize)];
      i := i + PacketSize;
    }
    assert transaction[i..] == [];
  }

  /** What is left after the leading group is a whole number of words. */
  lemma RestWhole(len: nat)
    ensures (len - len % 7) % 7 == 0
  {
  }

  /** The comprehension's element for start index i is the first word of what is left at i. */
  lemma GroupStep(t: string, i: nat)
    requires i < |t| && (|t| - i) % 7 == 0
    ensures i + 7 <= |t| && (|t| - (i + 7)) % 7 == 0
    ensures Words(t[i..]) == [Slice(t, i, i + 7)] + Words(t[i + 7..])
  {
    var rest := t[i..];
    WordsStep(rest);
    assert rest[..7] == t[i..i + 7];
    assert rest[7..] == t[i + 7..];
  }

  /** Peeling the first word off a non-empty whole number of words. */
  lemma WordsStep(rest: string)
    requires |rest| % 7 == 0 && |rest| > 0
    ensures |rest| >= 7 && |rest[7..]| % 7 == 0
    ensures Words(rest) == [rest[..7]] + Words(rest[7..])
  {
  }

  /** The filler and eop on `chunks[0]`, the sop on `chunks[-1]`, `0_0_` on the chunks between. */
  method FrameChunks(chunks: array<string>)
    requires chunks.Length > 0
    modifies chunks
    ensures chunks[..] == Frame(old(chunks[..]))
  {
    ghost var groups := chunks[..];
    ghost var framed := Frame(groups);
    var n := chunks.Length;
    var filler := Zeros(FillerWidth(|chunks[0]|));
    chunks[0] := "0_1_" + filler + chunks[0];
    chunks[n - 1] := "1_0_" + chunks[n - 1];
    assert chunks[0] == framed[0] && chunks[n - 1] == framed[n - 1];
    var m := 1;
    while m < n - 1
      invariant 1 <= m && (n >= 2 ==> m <= n - 1)
      invariant forall j :: 0 <= j < n && (j < m || j == n - 1) ==> chunks[j] == framed[j]
      invariant forall j :: m <= j < n - 1 ==> chunks[j] == groups[j]
    {
      chunks[m] := "0_0_" + chunks[m];
      m := m + 1;
    }
    assert forall j :: 0 <= j < n ==> chunks[j] == framed[j];
  }

  /** Python's `chunks.reverse()`: swap from both ends towards the middle. */
  method ReverseChunks(chunks: array<string>)
    modifies chunks
    ensures chunks[..] == Reverse(old(chunks[..]))
  {
    var n := chunks.Length;
    var lo := 0;
    while lo < n / 2
      invariant 0 <= lo <= n / 2
      invariant forall j :: 0 <= j < lo ==> chunks[j] == old(chunks[n - 1 - j]) && chunks[n - 1 - j] == old(chunks[j])
      invariant forall j :: lo <= j < n - lo ==> chunks[j] == old(chunks[j])
    {
      chunks[lo], chunks[n - 1 - lo] := chunks[n - 1 - lo], chunks[lo];
      lo := lo + 1;
    }
    assert forall j :: 0 <= j < n ==> chunks[j] == Reverse(old(chunks[..]))[j];
  }

  // ---------------------------------------------------------------------
  // Properties of the re-chunker

  /** The number of '0's in front of the transaction: 7 - len % 7, or none when 7 divides len. */
  function PadWidth(len: nat): (w: nat)
    ensures w < 7 && (len + w) % 7 == 0
  {
    (7 - len % 7) % 7
  }

  /** The transaction left-padded with zeros to a whole number of 7-character words. */
  function Padded(t: string): (p: string)
    ensures |p| % 7 == 0 && |p| == |t| + PadWidth(|t|)
    ensures p[PadWidth(|t|)..] == t
  {
    Zeros(PadWidth(|t|)) + t
  }

  /** The framing prefix of the j-th emitted line out of n. */
  function Flags(n: nat, j: nat): string
  {
    if n == 1 then SopTag + EopTag
    else if j == 0 then SopTag
    else if j == n - 1 then EopTag
    else MidTag
  }

  /** Split cuts exactly where the padded transaction's word boundaries fall. */
  lemma SplitPadded(t: string)
    requires |t| > 0
    ensures var gs, ws := Split(t), Words(Padded(t));
      |ws| == |gs| &&
      ws[0] == Zeros(FillerWidth(|gs[0]|)) + gs[0] &&
      forall k :: 1 <= k < |gs| ==> ws[k] == gs[k]
  {
    if |t| % 7 != 0 {
      var extra := |t| % 7;
      var rest := Words(t[extra..]);
      PaddedLead(t);
      assert Split(t) == [t[..extra]] + rest;
    } else {
      PaddedWhole(t);
    }
  }

  /** With a short leading group, the padded string's first word is that group behind its filler. */
  lemma PaddedLead(t: string)
    requires |t| % 7 != 0
    ensures var extra := |t| % 7;
      |t[extra..]| % 7 == 0 &&
      Words(Padded(t)) == [Zeros(FillerWidth(extra)) + t[..extra]] + Words(t[extra..])
  {
    var extra, pad := |t| % 7, PadWidth(|t|);
    var p := Padded(t);
    assert pad == 7 - extra && FillerWidth(extra) == pad;
    assert p[..7] == Zeros(pad) + t[..extra];
    assert p[7..] == t[extra..];
    WordsStep(p);
  }

  /** When 7 divides the length there is no padding and no short group. */
  lemma PaddedWhole(t: string)
    requires |t| % 7 == 0 && |t| > 0
    ensures Split(t) == Words(Padded(t)) && |Split(t)[0]| == 7
  {
    assert Padded(t) == t;
    assert t[0..] == t;
    WordsStep(t);
  }

  /** Each framed chunk: the prefix its emitted position calls for, then its group (padded, for chunks[0]). */
  lemma FrameAt(gs: seq<string>, k: nat)
    requires 0 <= k < |gs|
    ensures var n := |gs|;
      Frame(gs)[k] == Flags(n, n - 1 - k) + (if k == 0 then Zeros(FillerWidth(|gs[0]|)) + gs[0] else gs[k])
  {
    var n := |gs|;
    var z := Zeros(FillerWidth(|gs[0]|));
    if n == 1 {
      assert Frame(gs)[k] == SopTag + (EopTag + z) + gs[0];
    } else if k == 0 {
      assert Frame(gs)[k] == "" + (EopTag + z) + gs[0];
    } else if k == n - 1 {
      assert Frame(gs)[k] == SopTag + "" + gs[k];
    } else {
      assert Frame(gs)[k] == "" + MidTag + gs[k];
    }
  }

  /** Emitted line j carries the prefix for position j and word n-1-j of the zero-padded transaction. */
  lemma EmitLine(t: string, j: nat)
    requires |t| > 0 && j < ChunkCount(|t|)
    ensures var n := ChunkCount(|t|);
      Emit(t)[j] == Flags(n, j) + Words(Padded(t))[n - 1 - j]
  {
    var gs, ws := Split(t), Words(Padded(t));
    var n := |gs|;
    var k := n - 1 - j;
    SplitPadded(t);
    FrameAt(gs, k);
    var tail := if k == 0 then Zeros(FillerWidth(|gs[0]|)) + gs[0] else gs[k];
    assert tail == ws[k];
    assert Emit(t)[j] == Frame(gs)[k];
  }

  /**
   * What the source emits for a transaction of length L >= 1: ceil(L / 7)
   * lines; line j carries word n-1-j of the zero-padded transaction, so the
   * least significant word comes first; the first line carries the sop prefix,
   * the last the eop prefix, those between `0_0_`; a lone line carries both
   * prefixes stacked, `1_0_0_1_`.
   */
  lemma EmitShape(t: string)
    requires |t| > 0
    ensures var out, ws := Emit(t), Words(Padded(t));
      |out| == |ws| == ChunkCount(|t|) &&
      forall j :: 0 <= j < |out| ==> out[j] == Flags(|out|, j) + ws[|out| - 1 - j]
  {
    forall j | 0 <= j < ChunkCount(|t|)
      ensures Emit(t)[j] == Flags(ChunkCount(|t|), j) + Words(Padded(t))[ChunkCount(|t|) - 1 - j]
    {
      EmitLine(t, j);
    }
  }

  /** Every emitted line is its prefix followed by exactly seven data characters. */
  lemma EmitLineWidth(t: string, j: nat)
    requires |t| > 0 && j < ChunkCount(|t|)
    ensures var n := ChunkCount(|t|);
      |Emit(t)[j]| == |Flags(n, j)| + 7 &&
      |Emit(t)[j]| == (if n == 1 then 15 else 11)
  {
    var n := ChunkCount(|t|);
    EmitLine(t, j);
    WordsAt(Padded(t), n - 1 - j);
  }

  /** The seven data characters at the end of an emitted line. */
  function DataField(line: string): string
  {
    if |line| >= 7 then line[|line| - 7..] else line
  }

  function DataFields(lines: seq<string>): (ds: seq<string>)
    ensures |ds| == |lines|
    ensures forall j :: 0 <= j < |lines| ==> ds[j] == DataField(lines[j])
  {
    seq(|lines|, j requires 0 <= j < |lines| => DataField(lines[j]))
  }

  /** The data field of emitted line j is word n-1-j of the zero-padded transaction. */
  lemma DataFieldAt(t: string, j: nat)
    requires |t| > 0 && j < ChunkCount(|t|)
    ensures DataField(Emit(t)[j]) == Words(Padded(t))[ChunkCount(|t|) - 1 - j]
  {
    var n := ChunkCount(|t|);
    var w := Words(Padded(t))[n - 1 - j];
    EmitLine(t, j);
    WordsAt(Padded(t), n - 1 - j);
    assert |w| == 7;
    assert (Flags(n, j) + w)[|Flags(n, j) + w| - 7..] == w;
  }

  /**
   * The round trip: reading the data fields of the emitted lines back in
   * reverse emission order gives the zero-padded transaction, and dropping the
   * padding gives the transaction itself.
   */
  lemma EmitRoundTrip(t: string)
    requires |t| > 0
    ensures Concat(Reverse(DataFields(Emit(t)))) == Padded(t)
    ensures Concat(Reverse(DataFields(Emit(t))))[PadWidth(|t|)..] == t
  {
    DataFieldsReversed(t);
    WordsConcat(Padded(t));
  }

  lemma DataFieldsReversed(t: string)
    requires |t| > 0
    ensures Reverse(DataFields(Emit(t))) == Words(Padded(t))
  {
    var ds := DataFields(Emit(t));
    var ws := Words(Padded(t));
    forall j | 0 <= j < |ds| ensures ds[j] == ws[|ws| - 1 - j] {
      DataFieldAt(t, j);
    }
    ReverseMirror(ds, ws);
  }

  /** A list whose element j is element n-1-j of another is that other list reversed. */
  lemma ReverseMirror<T>(a: seq<T>, b: seq<T>)
    requires |a| == |b| && forall j :: 0 <= j < |a| ==> a[j] == b[|b| - 1 - j]
    ensures Reverse(a) == b
  {
  }

  /** The two prefixes a lone chunk receives, one in front of the other. */
  lemma StackedTags()
    ensures SopTag + EopTag == "1_0_0_1_"
  {
    var s := SopTag + EopTag;
    assert |s| == 8;
    assert s[0] == '1' && s[1] == '_' && s[2] == '0' && s[3] == '_';
    assert s[4] == '0' && s[5] == '_' && s[6] == '1' && s[7] == '_';
  }

  /** A transaction of at most seven characters becomes one line with both prefixes stacked and the filler. */
  lemma SingleChunk(t: string)
    requires 1 <= |t| <= 7
    ensures Emit(t) == ["1_0_0_1_" + Zeros(7 - |t|) + t]
  {
    var gs := Split(t);
    SplitShort(t);
    FrameAt(gs, 0);
    EmitOne(gs);
    var z := Zeros(7 - |t|);
    assert gs[0] == t;
    assert FillerWidth(|gs[0]|) == 7 - |t|;
    assert Zeros(FillerWidth(|gs[0]|)) == z;
    var flags := Flags(1, 0);
    StackedTags();
    assert flags == "1_0_0_1_";
    var line := Frame(gs)[0];
    assert line == flags + (z + t);
    AppendAssoc(flags, z, t);
    assert line == flags + z + t;
  }

  lemma EmitOne(gs: seq<string>)
    requires |gs| == 1
    ensures Reverse(Frame(gs)) == [Frame(gs)[0]]
  {
  }

  /** At most seven characters make a single group. */
  lemma SplitShort(t: string)
    requires 1 <= |t| <= 7
    ensures Split(t) == [t]
  {
    if |t| == 7 {
      assert |t| % 7 == 0 && t[0..] == t;
      assert t[7..] == [] && t[..7] == t;
      assert Words(t) == [t[..7]] + Words([]);
    } else {
      var extra := |t| % 7;
      assert extra == |t| by { ModSmall(|t|); }
      assert t[extra..] == [];
      assert Slice(t, 0, extra) == t[0..|t|] == t;
      assert Words(t[extra..]) == [];
    }
  }

  lemma ModSmall(x: nat)
    requires x < 7
    ensures x % 7 == x
  {
  }
}
