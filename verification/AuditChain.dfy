/** The audit log: every entry carries the hash of its predecessor and a hash of its own fields together
    with that predecessor hash. The keyed hash is a parameter. */
module AuditChain {
  import opened Decimal

  datatype AuditEntry = AuditEntry(
    ts: string,
    uid: nat,
    host: string,
    event: string,
    licenseId: string,
    detail: string,
    prevHash: string,
    entryHash: string)

  /** A line of the file: white space, not an entry, or an entry. Some white space is none to JSON, which matters only
      when an entry is written behind it. */
  datatype Line = Blank(json: bool) | Garbled | Record(entry: AuditEntry)

  type HashFn = string -> string

  /** What a hex digest of fixed length guarantees: no separator in it, and never the string "0" that
      stands for "no predecessor". */
  ghost predicate HexDigests(h: HashFn) {
    forall x :: '|' !in h(x) && h(x) != NO_HASH
  }

  const NO_HASH := "0"

  function UidText(uid: nat): (s: string)
    ensures |s| == |Digits(uid)|
    ensures forall i :: 0 <= i < |s| ==> Digits(uid)[i] < 10 && s[i] == Digits(uid)[i] as char + '0'
  {
    DigitsReadBack(uid);
    var d := Digits(uid);
    assert forall i :: 0 <= i < |d| ==> d[i] in d;
    seq(|d|, i requires 0 <= i < |d| => d[i] as char + '0')
  }

  /** The text that is hashed. */
  function Payload(e: AuditEntry, prevHash: string): string {
    e.ts + "|" + (UidText(e.uid) + "|" + (e.host + "|" + (e.event + "|" + (e.licenseId + "|" + (e.detail + "|" + prevHash)))))
  }

  function ComputeHash(h: HashFn, e: AuditEntry, prevHash: string): string {
    h(Payload(e, prevHash))
  }

  // ----- verifying -----

  function NonBlank(lines: seq<Line>): seq<Line> {
    if lines == [] then []
    else (if lines[0].Blank? then [] else [lines[0]]) + NonBlank(lines[1..])
  }

  /** `e` is a correct successor of an entry with hash `prev`. */
  predicate Links(h: HashFn, e: AuditEntry, prev: string) {
    e.prevHash == prev && e.entryHash == ComputeHash(h, e, prev)
  }

  function HashAfter(entries: seq<AuditEntry>): string {
    if entries == [] then NO_HASH else entries[|entries| - 1].entryHash
  }

  /** Each entry links to the one before it, the first to "0". */
  ghost predicate Chain(h: HashFn, entries: seq<AuditEntry>) {
    forall i :: 0 <= i < |entries| ==> Links(h, entries[i], HashAfter(entries[..i]))
  }

  function Records(entries: seq<AuditEntry>): (lines: seq<Line>)
    ensures |lines| == |entries| && forall i :: 0 <= i < |lines| ==> lines[i] == Record(entries[i])
  {
    seq(|entries|, i requires 0 <= i < |entries| => Record(entries[i]))
  }

  /** The non-blank lines of the log are exactly a chain of entries. */
  ghost predicate Intact(h: HashFn, lines: seq<Line>) {
    exists entries :: NonBlank(lines) == Records(entries) && Chain(h, entries)
  }

  /** A chain spelled out: the first entry names "0" as its predecessor, every other one the hash of the entry before it,
      and each carries the hash of its fields, the number in decimal digits, with bars between them. */
  lemma ChainMeans(h: HashFn, entries: seq<AuditEntry>)
    ensures Chain(h, entries) <==>
              forall i :: 0 <= i < |entries| ==>
                var e := entries[i];
                && e.prevHash == (if i == 0 then "0" else entries[i - 1].entryHash)
                && e.entryHash == h(PayloadText(e))
  {
    forall i | 0 <= i < |entries|
      ensures Links(h, entries[i], HashAfter(entries[..i])) <==>
                var e := entries[i]; e.prevHash == (if i == 0 then "0" else entries[i - 1].entryHash) && e.entryHash == h(PayloadText(e))
    {
      PayloadIsText(entries[i]);
      hide Payload, PayloadText;
    }
    hide Links, PayloadText, HashAfter;
  }

  /** The seven fields in their order, with a bar between any two, the number in decimal digits. */
  function PayloadText(e: AuditEntry): string {
    e.ts + "|" + UidText(e.uid) + "|" + e.host + "|" + e.event + "|" + e.licenseId + "|" + e.detail + "|" + e.prevHash
  }

  lemma UidTextExamples()
    ensures UidText(0) == "0" && UidText(1000) == "1000"
  {
    assert Digits(1000) == Digits(100) + [0] && Digits(100) == Digits(10) + [0] && Digits(10) == Digits(1) + [0];
    assert Digits(1000) == [1, 0, 0, 0];
  }

  lemma PayloadIsText(e: AuditEntry)
    ensures Payload(e, e.prevHash) == PayloadText(e)
  {
    hide UidText;
  }

  datatype Verification = Verified(n: nat) | Corrupted(corrupted: nat, total: nat)

  lemma {:induction false} NonBlankAppend(a: seq<Line>, b: seq<Line>)
    ensures NonBlank(a + b) == NonBlank(a) + NonBlank(b)
  {
    if a == [] {
      assert a + b == b;
    } else {
      assert (a + b)[0] == a[0] && (a + b)[1..] == a[1..] + b;
      NonBlankAppend(a[1..], b);
    }
  }

  lemma NonBlankOne(line: Line)
    ensures NonBlank([line]) == if line.Blank? then [] else [line]
  {
  }

  lemma ChainOneMore(h: HashFn, entries: seq<AuditEntry>, e: AuditEntry)
    requires Chain(h, entries)
    ensures Chain(h, entries + [e]) <==> Links(h, e, HashAfter(entries))
  {
    var more := entries + [e];
    assert more[..|entries|] == entries;
    forall i | 0 <= i < |entries| ensures Links(h, more[i], HashAfter(more[..i])) {
      assert more[..i] == entries[..i];
    }
    if Chain(h, more) {
      assert Links(h, more[|entries|], HashAfter(more[..|entries|]));
    }
  }

  lemma ChainPrefix(h: HashFn, entries: seq<AuditEntry>, n: nat)
    requires Chain(h, entries) && n <= |entries|
    ensures Chain(h, entries[..n])
  {
    forall i | 0 <= i < n ensures Links(h, entries[..n][i], HashAfter(entries[..n][..i])) {
      assert entries[..n][..i] == entries[..i];
    }
  }

  lemma RecordsInjective(a: seq<AuditEntry>, b: seq<AuditEntry>)
    requires Records(a) == Records(b)
    ensures a == b
  {
    forall i | 0 <= i < |a| ensures a[i] == b[i] {
      assert Records(a)[i] == Record(a[i]) && Records(b)[i] == Record(b[i]);
    }
  }

  lemma NonBlankPrefix(lines: seq<Line>, n: nat)
    requires n <= |lines|
    ensures NonBlank(lines[..n]) <= NonBlank(lines)
  {
    assert lines == lines[..n] + lines[n..];
    NonBlankAppend(lines[..n], lines[n..]);
  }

  /** Every prefix of an intact log is intact. */
  lemma PrefixIntact(h: HashFn, lines: seq<Line>, n: nat)
    requires Intact(h, lines) && n <= |lines|
    ensures Intact(h, lines[..n])
  {
    var entries :| NonBlank(lines) == Records(entries) && Chain(h, entries);
    NonBlankPrefix(lines, n);
    var k := |NonBlank(lines[..n])|;
    ChainPrefix(h, entries, k);
    assert NonBlank(lines[..n]) == Records(entries[..k]);
  }

  lemma IntactMeansChain(h: HashFn, lines: seq<Line>, entries: seq<AuditEntry>)
    requires NonBlank(lines) == Records(entries)
    ensures Intact(h, lines) <==> Chain(h, entries)
  {
    hide Chain;
    if Intact(h, lines) {
      var es :| NonBlank(lines) == Records(es) && Chain(h, es);
      RecordsInjective(es, entries);
    }
  }

  lemma GarbledIsNotIntact(h: HashFn, lines: seq<Line>)
    requires Garbled in NonBlank(lines)
    ensures !Intact(h, lines)
  {
  }

  /** One more line keeps an intact log intact exactly when it is blank or links to the end. */
  lemma IntactOneMore(h: HashFn, lines: seq<Line>, line: Line, entries: seq<AuditEntry>)
    requires NonBlank(lines) == Records(entries) && Chain(h, entries)
    ensures Intact(h, lines + [line]) <==> line.Blank? || (line.Record? && Links(h, line.entry, HashAfter(entries)))
  {
    hide Chain, Links, Intact;
    NonBlankAppend(lines, [line]);
    assert NonBlank([line]) == if line.Blank? then [] else [line];
    match line {
      case Blank(_) =>
        assert NonBlank(lines + [line]) == Records(entries);
        IntactMeansChain(h, lines + [line], entries);
      case Record(entry) =>
        assert NonBlank(lines + [line]) == Records(entries + [entry]);
        IntactMeansChain(h, lines + [line], entries + [entry]);
        ChainOneMore(h, entries, entry);
      case Garbled =>
        assert NonBlank(lines + [line])[|entries|] == Garbled;
        GarbledIsNotIntact(h, lines + [line]);
    }
  }

  /** The hash of the last line marked as accepted, "0" if none is. */
  ghost function LastAccepted(lines: seq<Line>, ok: seq<bool>): string
    requires |ok| <= |lines|
  {
    if |ok| == 0 then "0"
    else if ok[|ok| - 1] && lines[|ok| - 1].Record? then lines[|ok| - 1].entry.entryHash
    else LastAccepted(lines, ok[..|ok| - 1])
  }

  /** The first line without a mark is an entry that links to the last accepted one. */
  ghost predicate LinksToLast(h: HashFn, lines: seq<Line>, ok: seq<bool>)
    requires |ok| < |lines|
  {
    lines[|ok|].Record? && Links(h, lines[|ok|].entry, LastAccepted(lines, ok))
  }

  /** The marks on the first lines: exactly the entries that link to the last accepted one are accepted. */
  ghost predicate Marks(h: HashFn, lines: seq<Line>, ok: seq<bool>) {
    |ok| <= |lines| && forall i :: 0 <= i < |ok| ==> (ok[i] <==> LinksToLast(h, lines, ok[..i]))
  }

  /** How many lines that are not blank are marked as rejected. */
  ghost function Rejected(lines: seq<Line>, ok: seq<bool>): nat
    requires |ok| <= |lines|
  {
    if |ok| == 0 then 0
    else Rejected(lines, ok[..|ok| - 1]) + if !ok[|ok| - 1] && !lines[|ok| - 1].Blank? then 1 else 0
  }

  lemma NoMarks(h: HashFn, lines: seq<Line>)
    ensures Marks(h, lines, []) && LastAccepted(lines, []) == NO_HASH && Rejected(lines, []) == 0
    ensures NonBlank([]) == [] == Records([]) && Chain(h, []) && HashAfter([]) == NO_HASH
  {
  }

  lemma OneMoreMark(h: HashFn, lines: seq<Line>, ok: seq<bool>)
    requires Marks(h, lines, ok) && |ok| < |lines|
    ensures var b, line := LinksToLast(h, lines, ok), lines[|ok|];
            && b == (line.Record? && Links(h, line.entry, LastAccepted(lines, ok)))
            && Marks(h, lines, ok + [b])
            && LastAccepted(lines, ok + [b]) == (if b then line.entry.entryHash else LastAccepted(lines, ok))
            && Rejected(lines, ok + [b]) == Rejected(lines, ok) + if !b && !line.Blank? then 1 else 0
  {
    var more := ok + [LinksToLast(h, lines, ok)];
    assert more[..|ok|] == ok;
    MarksGoOn(h, lines, ok, LinksToLast(h, lines, ok));
    hide Links, Marks;
  }

  lemma MarksGoOn(h: HashFn, lines: seq<Line>, ok: seq<bool>, b: bool)
    requires Marks(h, lines, ok) && |ok| < |lines| && b == LinksToLast(h, lines, ok)
    ensures Marks(h, lines, ok + [b])
  {
    hide LinksToLast;
    var more := ok + [b];
    forall i | 0 <= i < |more| ensures more[i] <==> LinksToLast(h, lines, more[..i]) {
      assert more[..i] == ok[..i];
      assert i == |ok| ==> ok[..i] == ok;
    }
  }

  /** The log leaves no choice which of its lines are accepted. */
  lemma {:induction false} MarksUnique(h: HashFn, lines: seq<Line>, a: seq<bool>, b: seq<bool>, n: nat)
    requires Marks(h, lines, a) && Marks(h, lines, b) && n <= |a| == |b|
    ensures a[..n] == b[..n]
  {
    hide LinksToLast;
    if n > 0 {
      MarksUnique(h, lines, a, b, n - 1);
      assert a[n - 1] <==> LinksToLast(h, lines, a[..n - 1]);
      assert b[n - 1] <==> LinksToLast(h, lines, b[..n - 1]);
      assert a[..n] == a[..n - 1] + [a[n - 1]] && b[..n] == b[..n - 1] + [b[n - 1]];
    }
  }

  /** The verification loop skips what it counts as corrupted and goes on with the old hash; it accepts
      exactly the intact logs, and counts every non-blank line, as accepted or as corrupted. */
  method VerifyAuditLog(h: HashFn, lines: seq<Line>) returns (r: Verification, ghost ok: seq<bool>)
    ensures Intact(h, lines) <==> r.Verified?
    ensures r.Verified? ==> r.n == |NonBlank(lines)|
    ensures r.Corrupted? ==> 0 < r.corrupted <= r.total == |NonBlank(lines)|
    ensures |ok| == |lines| && Marks(h, lines, ok)
    ensures (if r.Corrupted? then r.corrupted else 0) == Rejected(lines, ok)
  {
    hide LastAccepted, LinksToLast, Marks, Rejected, Chain, Intact, NonBlank, ComputeHash;
    NoMarks(h, lines);
    var prevHash := NO_HASH;
    var verified, corrupted := 0, 0;
    ghost var entries: seq<AuditEntry> := [];
    ok := [];
    for i := 0 to |lines|
      invariant verified + corrupted == |NonBlank(lines[..i])|
      invariant corrupted == 0 ==>
                  NonBlank(lines[..i]) == Records(entries) && Chain(h, entries) && prevHash == HashAfter(entries)
      invariant corrupted > 0 ==> !Intact(h, lines[..i])
      invariant |ok| == i && Marks(h, lines, ok) && prevHash == LastAccepted(lines, ok) && corrupted == Rejected(lines, ok)
    {
      var line := lines[i];
      OneMoreMark(h, lines, ok);
      ok := ok + [LinksToLast(h, lines, ok)];
      assert lines[..i + 1] == lines[..i] + [line];
      NonBlankAppend(lines[..i], [line]);
      NonBlankOne(line);
      if corrupted == 0 {
        IntactOneMore(h, lines[..i], line, entries);
      } else if Intact(h, lines[..i + 1]) {
        assert lines[..i + 1][..i] == lines[..i];
        PrefixIntact(h, lines[..i + 1], i);
      }
      match line {
        case Blank(_) =>
        case Record(entry) =>
          if entry.prevHash != prevHash {
            corrupted := corrupted + 1;
          } else if entry.entryHash != ComputeHash(h, entry, prevHash) {
            corrupted := corrupted + 1;
          } else {
            if corrupted == 0 {
              ChainOneMore(h, entries, entry);
              assert Records(entries + [entry]) == Records(entries) + [line];
            }
            entries := entries + [entry];
            prevHash := entry.entryHash;
            verified := verified + 1;
          }
        case Garbled =>
          corrupted := corrupted + 1;
      }
    }
    assert lines[..|lines|] == lines;
    if corrupted == 0 {
      IntactMeansChain(h, lines, entries);
    }
    r := if corrupted > 0 then Corrupted(corrupted, verified + corrupted) else Verified(verified);
  }

  // ----- appending -----

  /** The predecessor hash `audit_log` finds: the last line's, or "0" if there is none or it is no entry. */
  function LastHash(lines: seq<Line>): string {
    if lines != [] && lines[|lines| - 1].Record? then lines[|lines| - 1].entry.entryHash else NO_HASH
  }

  /** What the caller and the machine supply for one entry. */
  datatype Request = Request(ts: string, uid: nat, host: string, event: string, licenseId: string, detail: string)

  /** The text of `e` starts a new line only if the last one has its newline. Otherwise it ends up behind what the last
      line holds, which then is an entry only if that was white space to JSON. */
  function Written(lines: seq<Line>, terminated: bool, e: AuditEntry): seq<Line> {
    if lines == [] || terminated then lines + [Record(e)]
    else lines[..|lines| - 1] + [if lines[|lines| - 1] == Blank(true) then Record(e) else Garbled]
  }

  class AuditLog {
    const h: HashFn
    var lines: seq<Line>
    /** The last line has its newline. */
    var terminated: bool

    constructor (h: HashFn, lines: seq<Line>, terminated: bool)
      ensures this.h == h && this.lines == lines && this.terminated == terminated
    {
      this.h, this.lines, this.terminated := h, lines, terminated;
    }

    /** The text and its newline are written one after the other; `finished` says whether the newline was. */
    method Append(q: Request, finished: bool)
      modifies this
      ensures terminated == finished
      ensures exists e ::
                && lines == Written(old(lines), old(terminated), e)
                && Request(e.ts, e.uid, e.host, e.event, e.licenseId, e.detail) == q
                && Links(h, e, LastHash(old(lines)))
    {
      var prevHash := LastHash(lines);
      var entry := AuditEntry(q.ts, q.uid, q.host, q.event, q.licenseId, q.detail, prevHash, "");
      entry := entry.(entryHash := ComputeHash(h, entry, prevHash));
      assert Payload(entry, prevHash) == Payload(entry.(entryHash := ""), prevHash);
      lines := Written(lines, terminated, entry);
      terminated := finished;
    }

    /** A run of finished appends from an empty log: the log is intact and holds one entry per request. */
    method AppendAll(requests: seq<Request>)
      requires lines == []
      modifies this
      ensures Intact(h, lines) && |NonBlank(lines)| == |lines| == |requests|
    {
      ghost var entries: seq<AuditEntry> := [];
      for i := 0 to |requests|
        invariant lines == Records(entries) && |entries| == i && Chain(h, entries) && (i > 0 ==> terminated)
      {
        ghost var before := lines;
        Append(requests[i], true);
        ghost var e :| lines == before + [Record(e)] && Links(h, e, LastHash(before));
        assert LastHash(before) == HashAfter(entries);
        ChainOneMore(h, entries, e);
        entries := entries + [e];
      }
      AllRecordsNonBlank(entries);
    }
  }

  lemma {:induction false} AllRecordsNonBlank(entries: seq<AuditEntry>)
    ensures NonBlank(Records(entries)) == Records(entries)
  {
    if entries != [] {
      AllRecordsNonBlank(entries[1..]);
      assert Records(entries)[1..] == Records(entries[1..]);
    }
  }

  /** The log ends in blank lines although it has entries. */
  predicate BlankAfterEntries(lines: seq<Line>) {
    NonBlank(lines) != [] && lines[|lines| - 1].Blank?
  }

  lemma EndHashIsDigest(h: HashFn, entries: seq<AuditEntry>)
    requires HexDigests(h) && Chain(h, entries)
    ensures '|' !in HashAfter(entries) && (entries != [] ==> HashAfter(entries) != NO_HASH)
  {
    if entries != [] {
      assert Links(h, entries[|entries| - 1], HashAfter(entries[..|entries| - 1]));
    }
  }

  lemma PredecessorFoundIff(h: HashFn, lines: seq<Line>, entries: seq<AuditEntry>)
    requires HexDigests(h) && NonBlank(lines) == Records(entries) && Chain(h, entries)
    ensures LastHash(lines) == HashAfter(entries) <==> !BlankAfterEntries(lines)
  {
    EndHashIsDigest(h, entries);
    hide Chain, HexDigests;
    if lines != [] {
      hide NonBlank;
      NonBlankEnd(lines);
      if !lines[|lines| - 1].Blank? {
        assert Records(entries)[|entries| - 1] == Record(entries[|entries| - 1]);
      }
    }
  }

  lemma NonBlankEnd(lines: seq<Line>)
    requires lines != []
    ensures var last := lines[|lines| - 1];
            !last.Blank? ==> NonBlank(lines) != [] && NonBlank(lines)[|NonBlank(lines)| - 1] == last
  {
    var front, last := lines[..|lines| - 1], lines[|lines| - 1];
    assert lines == front + [last];
    NonBlankAppend(front, [last]);
    assert NonBlank([last]) == if last.Blank? then [] else [last];
  }

  /** The new entry gets a line of its own. */
  predicate OwnLine(lines: seq<Line>, terminated: bool) {
    lines == [] || terminated || lines[|lines| - 1] == Blank(true)
  }

  lemma WrittenOnOwnLine(h: HashFn, lines: seq<Line>, terminated: bool, e: AuditEntry, entries: seq<AuditEntry>)
    requires NonBlank(lines) == Records(entries) && Chain(h, entries) && OwnLine(lines, terminated)
    ensures Intact(h, Written(lines, terminated, e)) <==> Links(h, e, HashAfter(entries))
  {
    hide Chain, Intact, Links;
    if lines == [] || terminated {
      IntactOneMore(h, lines, Record(e), entries);
    } else {
      var front := lines[..|lines| - 1];
      assert lines == front + [Blank(true)];
      NonBlankAppend(front, [Blank(true)]);
      assert NonBlank([Blank(true)]) == [];
      IntactOneMore(h, front, Record(e), entries);
    }
  }

  lemma WrittenBehindSomething(h: HashFn, lines: seq<Line>, terminated: bool, e: AuditEntry)
    requires !OwnLine(lines, terminated)
    ensures !Intact(h, Written(lines, terminated, e))
  {
    hide Intact;
    var front := lines[..|lines| - 1];
    NonBlankAppend(front, [Garbled]);
    assert NonBlank([Garbled]) == [Garbled];
    assert Written(lines, terminated, e) == front + [Garbled];
    GarbledIsNotIntact(h, front + [Garbled]);
  }

  /** Appending to an intact log leaves it intact exactly when the last line has its newline, or nothing on it that JSON
      would notice, and the log does not end in a blank line after its entries. Verification accepts a last line
      without newline, but the next entry is written onto it; it skips a blank line, but the append takes it for a
      missing predecessor. */
  lemma AppendKeepsIntactIff(h: HashFn, lines: seq<Line>, terminated: bool, e: AuditEntry)
    requires HexDigests(h) && Intact(h, lines) && Links(h, e, LastHash(lines))
    ensures Intact(h, Written(lines, terminated, e)) <==> OwnLine(lines, terminated) && !BlankAfterEntries(lines)
  {
    var entries :| NonBlank(lines) == Records(entries) && Chain(h, entries);
    hide Chain, Intact, ComputeHash, BlankAfterEntries, HexDigests, OwnLine, Written;
    PredecessorFoundIff(h, lines, entries);
    if OwnLine(lines, terminated) {
      WrittenOnOwnLine(h, lines, terminated, e, entries);
    } else {
      WrittenBehindSomething(h, lines, terminated, e);
    }
  }

  /** An append cut off between its text and its newline leaves an intact log, which no later append can keep intact. */
  lemma CutOffAppendBreaksTheNext(h: HashFn, lines: seq<Line>, e: AuditEntry, next: AuditEntry)
    requires HexDigests(h) && Intact(h, lines) && Links(h, e, LastHash(lines)) && !BlankAfterEntries(lines)
    ensures Intact(h, Written(lines, true, e)) && !Intact(h, Written(Written(lines, true, e), false, next))
  {
    hide Intact, Links, HexDigests, BlankAfterEntries;
    AppendKeepsIntactIff(h, lines, true, e);
    WrittenBehindSomething(h, Written(lines, true, e), false, next);
  }
}
