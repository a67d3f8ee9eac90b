/** The service's event-log writer (`WriteEventLog`): one logical message becomes
    `ceil(length / 32000)` physical entries, each holding at most 32000 characters
    of the message, numbered "Part #k of n: " when there is more than one, and all
    carrying the same severity. `Reassemble` is its partner: it reads the entries
    back and recovers the message. */
module EventLog {
  import opened Optional
  import opened Decimal

  /** `maxEntryLength`: the most message characters one entry carries. */
  const MaxEntryLength: nat := 32000

  datatype Severity = Information | Error

  /** One physical event-log entry. */
  datatype Entry = Entry(severity: Severity, text: string)

  /** The entry type chosen from the `error` flag. */
  function SeverityOf(error: bool): (sev: Severity)
    ensures sev == Information <==> !error
    ensures sev == Error <==> error
  {
    if !error then Information else Error
  }

  function Min(a: int, b: int): int {
    if a <= b then a else b
  }

  /** Where piece `k` of a message starts: `k` blocks of `MaxEntryLength` in. */
  function Offset(k: nat): nat {
    if k == 0 then 0 else Offset(k - 1) + MaxEntryLength
  }

  /** The offset is the source's `maxEntryLength * split`. */
  lemma {:induction false} OffsetIsProduct(k: nat)
    ensures Offset(k) == MaxEntryLength * k
  {
    if k > 0 {
      OffsetIsProduct(k - 1);
    }
  }

  /** The number of entries a message of length `len` needs: just enough blocks
      of `MaxEntryLength` to cover it, and not one more. */
  function ChunkCount(len: nat): (n: nat)
    ensures len <= Offset(n)
    ensures n > 0 ==> Offset(n - 1) < len
    decreases len
  {
    if len == 0 then 0
    else if len <= MaxEntryLength then 1
    else 1 + ChunkCount(len - MaxEntryLength)
  }

  /** It is the ceiling of `len / MaxEntryLength`, the source's
      `Math.Ceiling(msg.Length / (float)maxEntryLength)` taken over exact numbers. */
  lemma ChunkCountIsCeiling(len: nat)
    ensures ChunkCount(len) == (len + MaxEntryLength - 1) / MaxEntryLength
  {
  }

  /** The strings of `parts`, one after another. */
  function Concat(parts: seq<string>): string
    decreases |parts|
  {
    if |parts| == 0 then "" else parts[0] + Concat(parts[1..])
  }

  /** The message cut into consecutive pieces of `MaxEntryLength` characters,
      the last one possibly shorter. */
  function Chunks(msg: string): (bodies: seq<string>)
    ensures |bodies| == ChunkCount(|msg|)
    ensures forall k :: 0 <= k < |bodies| ==> 0 < |bodies[k]| <= MaxEntryLength
    decreases |msg|
  {
    if |msg| == 0 then []
    else if |msg| <= MaxEntryLength then [msg]
    else [msg[..MaxEntryLength]] + Chunks(msg[MaxEntryLength..])
  }

  /** Nothing is lost or reordered in the cutting: the pieces, joined, are the message. */
  lemma {:induction false} ChunksConcat(msg: string)
    ensures Concat(Chunks(msg)) == msg
    decreases |msg|
  {
    if 0 < |msg| <= MaxEntryLength {
      assert Chunks(msg)[1..] == [];
    } else if |msg| > MaxEntryLength {
      var rest := msg[MaxEntryLength..];
      ChunksConcat(rest);
      assert Chunks(msg)[1..] == Chunks(rest);
      assert msg == msg[..MaxEntryLength] + rest;
    }
  }

  /** The numbered header of entry `k` (counting from zero) of `n`: it opens
      with "Part #" and closes with ": ". */
  function Header(k: nat, n: nat): (h: string)
    ensures |h| > 8 && h[..6] == "Part #" && h[|h| - 2..] == ": "
  {
    var h := "Part #" + NatToString(k + 1) + " of " + NatToString(n) + ": ";
    assert h == "Part #" + (NatToString(k + 1) + " of " + NatToString(n) + ": ");
    assert h == (("Part #" + NatToString(k + 1) + " of " + NatToString(n)) + ": ");
    h
  }

  /** What precedes the body of entry `k` of `n`: a header exactly when there is
      more than one entry, nothing otherwise. */
  function PartPrefix(k: nat, n: nat): (p: string)
    ensures n > 1 <==> |p| > 0
    ensures n > 1 ==> |p| > 8 && p[..6] == "Part #"
  {
    if n > 1 then Header(k, n) else ""
  }

  /** The entries `WriteEventLog(error, msg)` writes, in order. */
  function Written(error: bool, msg: string): (entries: seq<Entry>)
    ensures |entries| == ChunkCount(|msg|)
    ensures |entries| == 0 <==> |msg| == 0
    ensures forall k :: 0 <= k < |entries| ==> (entries[k].severity == Information <==> !error)
    ensures |entries| == 1 ==> entries[0].text == msg
  {
    var bodies := Chunks(msg);
    assert |bodies| == 1 ==> bodies == [msg];
    seq(|bodies|, k requires 0 <= k < |bodies| => Entry(SeverityOf(error), PartPrefix(k, |bodies|) + bodies[k]))
  }

  /** Past the first piece, the pieces of a message are the pieces of its tail. */
  lemma ChunksShift(msg: string, k: nat)
    requires 0 < k < ChunkCount(|msg|)
    ensures |msg| > MaxEntryLength
    ensures k - 1 < ChunkCount(|msg| - MaxEntryLength)
    ensures Chunks(msg)[k] == Chunks(msg[MaxEntryLength..])[k - 1]
  {
  }

  /** The piece that starts at `off`: `MaxEntryLength` characters, or up to the end. */
  function Piece(msg: string, off: nat): string
    requires off < |msg|
  {
    msg[off .. off + Min(|msg| - off, MaxEntryLength)]
  }

  /** A piece of the tail is the piece of the message one block further on. */
  lemma PieceOfTail(msg: string, start: nat, off: nat)
    requires |msg| > MaxEntryLength && start < |msg| - MaxEntryLength
    requires off == MaxEntryLength + start
    ensures off < |msg|
    ensures Piece(msg[MaxEntryLength..], start) == Piece(msg, off)
  {
  }

  /** Piece `k` of the message is the substring that starts at `Offset(k)` and
      runs for `MaxEntryLength` characters or to the end. */
  predicate PieceAt(msg: string, k: nat)
    requires k < ChunkCount(|msg|)
  {
    Offset(k) < |msg| && Chunks(msg)[k] == Piece(msg, Offset(k))
  }

  lemma FirstPiece(msg: string)
    requires 0 < ChunkCount(|msg|)
    ensures PieceAt(msg, 0)
  {
  }

  lemma PieceFromTail(msg: string, k: nat)
    requires 0 < k < ChunkCount(|msg|)
    requires |msg| > MaxEntryLength && k - 1 < ChunkCount(|msg| - MaxEntryLength)
    requires PieceAt(msg[MaxEntryLength..], k - 1)
    ensures PieceAt(msg, k)
  {
    ChunksShift(msg, k);
    PieceOfTail(msg, Offset(k - 1), Offset(k));
  }

  lemma {:induction false} ChunkOffset(msg: string, k: nat)
    requires k < ChunkCount(|msg|)
    ensures PieceAt(msg, k)
    decreases k
  {
    if k == 0 {
      FirstPiece(msg);
    } else {
      ChunksShift(msg, k);
      ChunkOffset(msg[MaxEntryLength..], k - 1);
      PieceFromTail(msg, k);
    }
  }

  /** Entry `k` as the source's loop builds it: its header, then the substring at
      offset `Offset(k)`. */
  lemma WrittenAt(error: bool, msg: string, k: nat, curPos: int, len: int)
    requires k < ChunkCount(|msg|)
    requires curPos == Offset(k)
    requires len == Min(|msg| - curPos, MaxEntryLength)
    ensures 0 <= curPos <= curPos + len <= |msg|
    ensures Written(error, msg)[k] == Entry(SeverityOf(error), PartPrefix(k, ChunkCount(|msg|)) + msg[curPos .. curPos + len])
  {
    ChunkOffset(msg, k);
  }

  /** One turn of the source's loop: the entry built at `curPos = maxEntryLength * split`
      extends the entries written so far by the next entry of `Written`. */
  lemma WriteStep(error: bool, msg: string, split: nat, curPos: int, len: int, entries: seq<Entry>)
    requires split < ChunkCount(|msg|)
    requires entries == Written(error, msg)[..split]
    requires curPos == MaxEntryLength * split
    requires len == Min(|msg| - curPos, MaxEntryLength)
    ensures 0 <= curPos <= curPos + len <= |msg|
    ensures entries + [Entry(SeverityOf(error), PartPrefix(split, ChunkCount(|msg|)) + msg[curPos .. curPos + len])]
         == Written(error, msg)[..split + 1]
  {
    OffsetIsProduct(split);
    WrittenAt(error, msg, split, curPos, len);
    PrefixStep(Written(error, msg), split);
  }

  lemma PrefixStep<T>(all: seq<T>, split: nat)
    requires split < |all|
    ensures all[..split + 1] == all[..split] + [all[split]]
  {
  }

  /** The source's loop: for each split, the substring at `MaxEntryLength * split`,
      headed by "Part #(split+1) of splitMsg: " when `splitMsg > 1`. It writes
      exactly the entries of `Written`. */
  method WriteEventLog(error: bool, msg: string) returns (entries: seq<Entry>)
    ensures entries == Written(error, msg)
  {
    var splitMsg := ChunkCount(|msg|);
    ghost var all := Written(error, msg);
    entries := [];
    var split := 0;
    while split < splitMsg
      invariant 0 <= split <= splitMsg
      invariant entries == all[..split]
    {
      var curPos := MaxEntryLength * split;
      var len := Min(|msg| - curPos, MaxEntryLength);
      WriteStep(error, msg, split, curPos, len, entries);
      entries := entries + [Entry(SeverityOf(error), PartPrefix(split, splitMsg) + msg[curPos .. curPos + len])];
      split := split + 1;
    }
    assert all[..split] == all;
  }

  /** Reads a "Part #k of n: " header off `t`: the two numbers and the rest. */
  function ParseHeader(t: string): Option<(nat, nat, string)> {
    if |t| >= 6 && t[..6] == "Part #" then
      var (d1, r1) := TakeDigits(t[6..]);
      if |d1| > 0 && |r1| >= 4 && r1[..4] == " of " then
        var (d2, r2) := TakeDigits(r1[4..]);
        if |d2| > 0 && |r2| >= 2 && r2[..2] == ": " then
          Some((ParseDigits(d1), ParseDigits(d2), r2[2..]))
        else None
      else None
    else None
  }

  /** The header `PartPrefix` writes is read back with its numbers, and the body
      after it is left untouched. */
  lemma ParseHeaderOfPrefix(k: nat, n: nat, body: string)
    requires n > 1
    ensures ParseHeader(PartPrefix(k, n) + body) == Some((k + 1, n, body))
  {
    var a := NatToString(k + 1);
    var b := NatToString(n);
    HeaderText(k, n);
    assert Header(k, n) + body == "Part #" + (a + (" of " + (b + (": " + body))));
    ParseHeaderShape(a, b, body);
    ParseNatToString(k + 1);
    ParseNatToString(n);
  }

  lemma HeaderText(k: nat, n: nat)
    requires n > 1
    ensures PartPrefix(k, n) == Header(k, n) == "Part #" + NatToString(k + 1) + " of " + NatToString(n) + ": "
  {
  }

  lemma ParseHeaderShape(a: string, b: string, body: string)
    requires |a| > 0 && AllDigits(a)
    requires |b| > 0 && AllDigits(b)
    ensures ParseHeader("Part #" + (a + (" of " + (b + (": " + body)))))
         == Some((ParseDigits(a), ParseDigits(b), body))
  {
    var r2 := ": " + body;
    var r1 := " of " + (b + r2);
    var t := "Part #" + (a + r1);
    assert TakeDigits(t[6..]) == (a, r1) by {
      assert t[6..] == a + r1;
      TakeDigitsOfNumeral(a, r1);
    }
    assert TakeDigits(r1[4..]) == (b, r2) by {
      assert r1[4..] == b + r2;
      TakeDigitsOfNumeral(b, r2);
    }
    assert t[..6] == "Part #";
    assert r1[..4] == " of ";
    assert r2[..2] == ": " && r2[2..] == body;
  }

  /** Reads entries `from..` of a message split into `n` parts, checking that
      each carries the header "Part #(i+1) of n: ", and joins their bodies. */
  function StripParts(entries: seq<Entry>, from: nat, n: nat): Option<string>
    requires from <= |entries|
    decreases |entries| - from
  {
    if from == |entries| then Some("")
    else
      var h := ParseHeader(entries[from].text);
      if h.Some? && h.value.0 == from + 1 && h.value.1 == n then
        var rest := StripParts(entries, from + 1, n);
        if rest.Some? then Some(h.value.2 + rest.value) else None
      else None
  }

  /** Recovers a message from the entries it was written as: a single entry is
      the message itself; several are stripped of their numbered headers. */
  function Reassemble(entries: seq<Entry>): Option<string> {
    if |entries| == 0 then Some("")
    else if |entries| == 1 then Some(entries[0].text)
    else StripParts(entries, 0, |entries|)
  }

  lemma {:induction false} StripWritten(error: bool, msg: string, from: nat)
    requires from <= |Chunks(msg)|
    requires |Chunks(msg)| > 1
    ensures StripParts(Written(error, msg), from, |Chunks(msg)|) == Some(Concat(Chunks(msg)[from..]))
    decreases |Chunks(msg)| - from
  {
    var bodies := Chunks(msg);
    var entries := Written(error, msg);
    var n := |bodies|;
    if from == n {
      assert bodies[from..] == [];
    } else {
      assert entries[from].text == PartPrefix(from, n) + bodies[from];
      ParseHeaderOfPrefix(from, n, bodies[from]);
      StripWritten(error, msg, from + 1);
      assert bodies[from..][1..] == bodies[from + 1..];
    }
  }

  /** Every message survives being written to the log: the bodies of the entries,
      headers removed, joined in order, are the message. */
  lemma ReassembleWritten(error: bool, msg: string)
    ensures Reassemble(Written(error, msg)) == Some(msg)
  {
    var n := |Chunks(msg)|;
    if n > 1 {
      StripWritten(error, msg, 0);
      assert Chunks(msg)[0..] == Chunks(msg);
      ChunksConcat(msg);
    }
  }

  /** Body `k` is the piece of the message at offset `MaxEntryLength * k`:
      the next `MaxEntryLength` characters, or what is left. */
  lemma BodyAt(msg: string, k: nat)
    requires k < ChunkCount(|msg|)
    ensures MaxEntryLength * k < |msg|
    ensures Chunks(msg)[k] == Piece(msg, MaxEntryLength * k)
  {
    ChunkOffset(msg, k);
    OffsetIsProduct(k);
  }
}
