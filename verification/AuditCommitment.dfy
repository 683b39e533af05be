/** What a payload and a last hash commit to: the text that is hashed, taken apart again. */
module AuditCommitment {
  import opened Decimal
  import opened AuditChain

  /** No separator in the fields before the free-form detail. */
  predicate Separable(e: AuditEntry) {
    '|' !in e.ts && '|' !in e.host && '|' !in e.event && '|' !in e.licenseId
  }

  lemma {:induction false} SplitAtFirstBar(a: string, x: string, b: string, y: string)
    requires '|' !in a && '|' !in b && a + "|" + x == b + "|" + y
    ensures a == b && x == y
  {
    var s, t := a + "|" + x, b + "|" + y;
    assert s[|a|] == '|' && t[|b|] == '|';
    if |a| < |b| {
      assert false;
    }
    if |b| < |a| {
      assert false;
    }
    assert a == s[..|a|] == t[..|b|] == b;
    assert x == s[|a| + 1..] == t[|b| + 1..] == y;
  }

  lemma SplitAtLastBar(a: string, x: string, b: string, y: string)
    requires '|' !in x && '|' !in y && a + "|" + x == b + "|" + y
    ensures a == b && x == y
  {
    var s, t := a + "|" + x, b + "|" + y;
    assert |a| + |x| == |b| + |y|;
    assert s[|a|] == '|' && t[|b|] == '|';
    if |a| < |b| {
      assert false;
    }
    if |b| < |a| {
      assert false;
    }
    assert a == s[..|a|] == t[..|b|] == b;
    assert x == s[|a| + 1..] == t[|b| + 1..] == y;
  }

  lemma UidTextFacts(u: nat, v: nat)
    ensures '|' !in UidText(u)
    ensures UidText(u) == UidText(v) ==> u == v
  {
    if UidText(u) == UidText(v) {
      assert Digits(u) == Digits(v) by {
        forall i | 0 <= i < |Digits(u)| ensures Digits(u)[i] == Digits(v)[i] {
          assert UidText(u)[i] == UidText(v)[i];
        }
      }
      DigitsReadBack(u);
      DigitsReadBack(v);
    }
  }

  /** The payload determines every field that goes into it. */
  lemma PayloadInjective(d: AuditEntry, p: string, e: AuditEntry, q: string)
    requires Separable(d) && Separable(e) && '|' !in p && '|' !in q
    requires Payload(d, p) == Payload(e, q)
    ensures p == q && SameFields(d, e)
  {
    UidTextFacts(d.uid, e.uid);
    UidTextFacts(e.uid, d.uid);
    var d5, e5 := d.detail + "|" + p, e.detail + "|" + q;
    var d4, e4 := d.licenseId + "|" + d5, e.licenseId + "|" + e5;
    var d3, e3 := d.event + "|" + d4, e.event + "|" + e4;
    var d2, e2 := d.host + "|" + d3, e.host + "|" + e3;
    SplitAtFirstBar(d.ts, UidText(d.uid) + "|" + d2, e.ts, UidText(e.uid) + "|" + e2);
    SplitAtFirstBar(UidText(d.uid), d2, UidText(e.uid), e2);
    SplitAtFirstBar(d.host, d3, e.host, e3);
    SplitAtFirstBar(d.event, d4, e.event, e4);
    SplitAtFirstBar(d.licenseId, d5, e.licenseId, e5);
    SplitAtLastBar(d.detail, p, e.detail, q);
  }

  /** A bar in the event lets the separator move: two different entries share the payload. */
  lemma BarInEventHasAlias(e: AuditEntry, prevHash: string, k: nat)
    requires k < |e.event| && e.event[k] == '|'
    ensures var other := e.(event := e.event[..k], licenseId := e.event[k + 1..] + "|" + e.licenseId);
            other != e && Payload(other, prevHash) == Payload(e, prevHash)
  {
    var rest := e.detail + "|" + prevHash;
    assert e.event + "|" + (e.licenseId + "|" + rest)
        == e.event[..k] + "|" + ((e.event[k + 1..] + "|" + e.licenseId) + "|" + rest);
  }

  predicate SameFields(d: AuditEntry, e: AuditEntry) {
    d.(prevHash := "", entryHash := "") == e.(prevHash := "", entryHash := "")
  }

  /** No separator in any field behind the timestamp. */
  predicate BarFree(e: AuditEntry) {
    '|' !in e.host && '|' !in e.event && '|' !in e.licenseId && '|' !in e.detail
  }

  /** One field is cut at a bar and the field next to it takes the rest: the text stays the same. */
  lemma SeparatorMoves(x: string, y: string, k: nat, rest: string)
    requires k < |x| && x[k] == '|'
    ensures x + "|" + (y + "|" + rest) == x[..k] + "|" + ((x[k + 1..] + "|" + y) + "|" + rest)
  {
    assert x == x[..k] + "|" + x[k + 1..];
  }

  lemma SeparatorMovesBack(y: string, x: string, k: nat, rest: string)
    requires k < |x| && x[k] == '|'
    ensures y + "|" + (x + "|" + rest) == (y + "|" + x[..k]) + "|" + (x[k + 1..] + "|" + rest)
  {
    assert x == x[..k] + "|" + x[k + 1..];
  }

  lemma BarInHostHasAlias(e: AuditEntry, p: string, k: nat)
    requires k < |e.host| && e.host[k] == '|'
    ensures Payload(e.(host := e.host[..k], event := e.host[k + 1..] + "|" + e.event), p) == Payload(e, p)
  {
    hide UidText;
    SeparatorMoves(e.host, e.event, k, e.licenseId + "|" + (e.detail + "|" + p));
  }

  lemma BarInLicenseHasAlias(e: AuditEntry, p: string, k: nat)
    requires k < |e.licenseId| && e.licenseId[k] == '|'
    ensures Payload(e.(licenseId := e.licenseId[..k], detail := e.licenseId[k + 1..] + "|" + e.detail), p) == Payload(e, p)
  {
    hide UidText;
    SeparatorMoves(e.licenseId, e.detail, k, p);
  }

  lemma BarInDetailHasAlias(e: AuditEntry, p: string, k: nat)
    requires k < |e.detail| && e.detail[k] == '|'
    ensures Payload(e.(licenseId := e.licenseId + "|" + e.detail[..k], detail := e.detail[k + 1..]), p) == Payload(e, p)
  {
    hide UidText;
    SeparatorMovesBack(e.licenseId, e.detail, k, p);
  }

  lemma BarHasAlias(e: AuditEntry, p: string) returns (d: AuditEntry)
    requires !BarFree(e)
    ensures d.ts == e.ts && !SameFields(d, e) && Payload(d, p) == Payload(e, p)
    ensures d.prevHash == e.prevHash && d.entryHash == e.entryHash
  {
    hide Payload;
    if '|' in e.host {
      var k :| 0 <= k < |e.host| && e.host[k] == '|';
      d := e.(host := e.host[..k], event := e.host[k + 1..] + "|" + e.event);
      BarInHostHasAlias(e, p, k);
    } else if '|' in e.event {
      var k :| 0 <= k < |e.event| && e.event[k] == '|';
      d := e.(event := e.event[..k], licenseId := e.event[k + 1..] + "|" + e.licenseId);
      BarInEventHasAlias(e, p, k);
    } else if '|' in e.licenseId {
      var k :| 0 <= k < |e.licenseId| && e.licenseId[k] == '|';
      d := e.(licenseId := e.licenseId[..k], detail := e.licenseId[k + 1..] + "|" + e.detail);
      BarInLicenseHasAlias(e, p, k);
    } else {
      var k :| 0 <= k < |e.detail| && e.detail[k] == '|';
      d := e.(licenseId := e.licenseId + "|" + e.detail[..k], detail := e.detail[k + 1..]);
      BarInDetailHasAlias(e, p, k);
    }
  }

  ghost function Bars(s: string): nat {
    if |s| == 0 then 0 else Bars(s[..|s| - 1]) + if s[|s| - 1] == '|' then 1 else 0
  }

  lemma {:induction false} BarsAppend(s: string, t: string)
    ensures Bars(s + t) == Bars(s) + Bars(t)
  {
    if |t| == 0 {
      assert s + t == s;
    } else {
      BarsAppend(s, t[..|t| - 1]);
      assert (s + t)[..|s + t| - 1] == s + t[..|t| - 1];
    }
  }

  lemma {:induction false} NoBarsIff(s: string)
    ensures Bars(s) == 0 <==> '|' !in s
  {
    if |s| > 0 {
      NoBarsIff(s[..|s| - 1]);
      assert s == s[..|s| - 1] + [s[|s| - 1]];
    }
  }

  lemma BarsJoined(s: string, t: string)
    ensures Bars(s + "|" + t) == Bars(s) + 1 + Bars(t)
  {
    BarsAppend(s, "|");
    BarsAppend(s + "|", t);
    assert "|"[..0] == "";
  }

  /** The payload has six separators, and one bar more for every bar in a field. */
  lemma PayloadBars(e: AuditEntry, p: string)
    ensures Bars(Payload(e, p)) == 6 + Bars(e.ts) + Bars(e.host) + Bars(e.event) + Bars(e.licenseId) + Bars(e.detail) + Bars(p)
  {
    hide Bars, UidText;
    var e5 := e.detail + "|" + p;
    var e4 := e.licenseId + "|" + e5;
    var e3 := e.event + "|" + e4;
    var e2 := e.host + "|" + e3;
    BarsJoined(e.detail, p);
    BarsJoined(e.licenseId, e5);
    BarsJoined(e.event, e4);
    BarsJoined(e.host, e3);
    BarsJoined(UidText(e.uid), e2);
    BarsJoined(e.ts, UidText(e.uid) + "|" + e2);
    UidTextFacts(e.uid, e.uid);
    NoBarsIff(UidText(e.uid));
  }

  /** The payload of `e` after `p` is no other entry's, nor the same entry's after another hash. */
  ghost predicate Commits(e: AuditEntry, p: string) {
    forall d: AuditEntry, q: string :: '|' !in d.ts && '|' !in q && Payload(d, q) == Payload(e, p) ==> q == p && SameFields(d, e)
  }

  lemma BarFreeDetermines(d: AuditEntry, q: string, e: AuditEntry, p: string)
    requires '|' !in e.ts && BarFree(e) && '|' !in p && Payload(d, q) == Payload(e, p)
    ensures q == p && SameFields(d, e)
  {
    hide Payload, Bars;
    PayloadBars(d, q);
    PayloadBars(e, p);
    NoBarsIff(e.ts);
    NoBarsIff(e.host);
    NoBarsIff(e.event);
    NoBarsIff(e.licenseId);
    NoBarsIff(e.detail);
    NoBarsIff(p);
    NoBarsIff(d.ts);
    NoBarsIff(d.host);
    NoBarsIff(d.event);
    NoBarsIff(d.licenseId);
    NoBarsIff(q);
    PayloadInjective(d, q, e, p);
  }

  /** The payload commits to the entry and its predecessor exactly when no field behind the timestamp has a bar;
      then not even texts with bars elsewhere can share it. */
  lemma CommitsIffBarFree(e: AuditEntry, p: string)
    requires '|' !in e.ts && '|' !in p
    ensures Commits(e, p) <==> BarFree(e)
    ensures BarFree(e) ==> forall d, q :: Payload(d, q) == Payload(e, p) ==> q == p && SameFields(d, e)
  {
    hide Payload, SameFields, BarFree;
    if BarFree(e) {
      forall d, q | Payload(d, q) == Payload(e, p) ensures q == p && SameFields(d, e) {
        BarFreeDetermines(d, q, e, p);
      }
    } else {
      var d := BarHasAlias(e, p);
    }
  }

  /** Equal payloads at the ends push the question back to the predecessors. */
  lemma SamePayloadSameEntry(d: AuditEntry, p: string, e: AuditEntry, q: string)
    requires Separable(d) && Separable(e) && '|' !in p && '|' !in q
    requires Payload(d, p) == Payload(e, q)
    requires d.prevHash == p && e.prevHash == q && d.entryHash == e.entryHash
    ensures p == q && d == e
  {
    PayloadInjective(d, p, e, q);
    assert d == d.(prevHash := "", entryHash := "").(prevHash := p, entryHash := d.entryHash);
    assert e == e.(prevHash := "", entryHash := "").(prevHash := q, entryHash := e.entryHash);
  }

  lemma LastLinks(h: HashFn, entries: seq<AuditEntry>)
    requires HexDigests(h) && Chain(h, entries) && entries != []
    ensures Links(h, entries[|entries| - 1], HashAfter(entries[..|entries| - 1]))
    ensures Chain(h, entries[..|entries| - 1]) && '|' !in HashAfter(entries[..|entries| - 1])
    ensures HashAfter(entries) != NO_HASH && entries == entries[..|entries| - 1] + [entries[|entries| - 1]]
    ensures entries[|entries| - 1] in entries && forall e :: e in entries[..|entries| - 1] ==> e in entries
  {
    ChainPrefix(h, entries, |entries| - 1);
    EndHashIsDigest(h, entries[..|entries| - 1]);
    EndHashIsDigest(h, entries);
  }

  /** Two intact chains that end in the same hash are the same chain, entry for entry and in length, or
      else they exhibit two texts with the same hash. */
  lemma {:induction false} LastHashDeterminesLog(h: HashFn, a: seq<AuditEntry>, b: seq<AuditEntry>)
    returns (x: string, y: string)
    requires HexDigests(h) && Chain(h, a) && Chain(h, b) && HashAfter(a) == HashAfter(b)
    requires (forall e :: e in a ==> Separable(e)) && forall e :: e in b ==> Separable(e)
    ensures a == b || (x != y && h(x) == h(y))
  {
    hide Payload, Chain, HexDigests, Separable;
    x, y := "", "";
    if a != [] {
      LastLinks(h, a);
    }
    if b != [] {
      LastLinks(h, b);
    }
    if a != [] && b != [] {
      var d, e := a[|a| - 1], b[|b| - 1];
      var p, q := HashAfter(a[..|a| - 1]), HashAfter(b[..|b| - 1]);
      x, y := Payload(d, p), Payload(e, q);
      if x == y {
        SamePayloadSameEntry(d, p, e, q);
        x, y := LastHashDeterminesLog(h, a[..|a| - 1], b[..|b| - 1]);
      }
    }
  }

  // ----- the whole log -----

  predicate AllBarFree(entries: seq<AuditEntry>) {
    forall i :: 0 <= i < |entries| ==> BarFree(entries[i])
  }

  predicate StampsBarFree(entries: seq<AuditEntry>) {
    forall i :: 0 <= i < |entries| ==> '|' !in entries[i].ts
  }

  /** A log without bars shares its last hash with no other intact chain, whatever the fields of the other one, unless
      two texts have the same hash. */
  lemma {:induction false} LastHashCommits(h: HashFn, a: seq<AuditEntry>, b: seq<AuditEntry>) returns (x: string, y: string)
    requires HexDigests(h) && Chain(h, a) && Chain(h, b) && HashAfter(a) == HashAfter(b)
    requires StampsBarFree(a) && AllBarFree(a)
    ensures a == b || (x != y && h(x) == h(y))
  {
    hide Payload, Chain, HexDigests, BarFree;
    x, y := "", "";
    if a != [] {
      LastLinks(h, a);
    }
    if b != [] {
      LastLinks(h, b);
    }
    if a != [] && b != [] {
      var e, d := a[|a| - 1], b[|b| - 1];
      var p, q := HashAfter(a[..|a| - 1]), HashAfter(b[..|b| - 1]);
      x, y := Payload(e, p), Payload(d, q);
      if x == y {
        BarFreeDetermines(d, q, e, p);
        SameFieldsSameEntry(d, e);
        x, y := LastHashCommits(h, a[..|a| - 1], b[..|b| - 1]);
      }
    }
  }

  lemma SameFieldsSameEntry(d: AuditEntry, e: AuditEntry)
    requires SameFields(d, e) && d.prevHash == e.prevHash && d.entryHash == e.entryHash
    ensures d == e
  {
    assert d == d.(prevHash := "", entryHash := "").(prevHash := d.prevHash, entryHash := d.entryHash);
    assert e == e.(prevHash := "", entryHash := "").(prevHash := e.prevHash, entryHash := e.entryHash);
  }

  /** The hashes of both logs are taken of the same texts. */
  ghost predicate SameTexts(a: seq<AuditEntry>, b: seq<AuditEntry>) {
    |a| == |b| && forall i :: 0 <= i < |a| ==> Payload(a[i], a[i].prevHash) == Payload(b[i], b[i].prevHash)
  }

  lemma ReplacedHashAfter(a: seq<AuditEntry>, i: nat, d: AuditEntry, k: nat)
    requires i < |a| && d.entryHash == a[i].entryHash && k <= |a|
    ensures HashAfter(a[i := d][..k]) == HashAfter(a[..k])
  {
  }

  /** An entry can be exchanged for one with the same text and the same hashes. */
  lemma ReplacedKeepsChain(h: HashFn, a: seq<AuditEntry>, i: nat, d: AuditEntry)
    requires Chain(h, a) && i < |a| && d.prevHash == a[i].prevHash && d.entryHash == a[i].entryHash
    requires Payload(d, d.prevHash) == Payload(a[i], a[i].prevHash)
    ensures Chain(h, a[i := d])
  {
    hide Payload;
    var b := a[i := d];
    forall k | 0 <= k < |b| ensures Links(h, b[k], HashAfter(b[..k])) {
      assert Links(h, a[k], HashAfter(a[..k]));
      ReplacedHashAfter(a, i, d, k);
    }
  }

  /** With a bar in some entry a different intact chain hashes the same texts, and so ends in the same hash. */
  lemma BarGivesTwin(h: HashFn, a: seq<AuditEntry>, i: nat) returns (b: seq<AuditEntry>)
    requires Chain(h, a) && i < |a| && !BarFree(a[i])
    ensures Chain(h, b) && b != a && SameTexts(a, b) && HashAfter(b) == HashAfter(a)
  {
    hide Payload, BarFree, Chain;
    var d := BarHasAlias(a[i], a[i].prevHash);
    b := a[i := d];
    assert b[i] != a[i];
    ReplacedKeepsChain(h, a, i, d);
    ReplacedHashAfter(a, i, d, |a|);
    assert b[..|a|] == b && a[..|a|] == a;
  }

  /** The texts hashed determine the log exactly when it has no bar behind a timestamp. */
  lemma TextsDetermineLogIff(h: HashFn, a: seq<AuditEntry>)
    requires HexDigests(h) && Chain(h, a) && StampsBarFree(a)
    ensures (forall b :: Chain(h, b) && SameTexts(a, b) ==> b == a) <==> AllBarFree(a)
  {
    hide Payload, BarFree, HexDigests, Chain;
    if AllBarFree(a) {
      forall b | Chain(h, b) && SameTexts(a, b) ensures b == a {
        SameTextsSameLog(h, a, b);
      }
    } else {
      var i :| 0 <= i < |a| && !BarFree(a[i]);
      var b := BarGivesTwin(h, a, i);
    }
  }

  lemma {:induction false} SameTextsSameLog(h: HashFn, a: seq<AuditEntry>, b: seq<AuditEntry>)
    requires HexDigests(h) && Chain(h, a) && Chain(h, b) && SameTexts(a, b)
    requires StampsBarFree(a) && AllBarFree(a)
    ensures a == b
  {
    hide Payload, BarFree, HexDigests, Chain;
    if a != [] {
      LastLinks(h, a);
      LastLinks(h, b);
      var e, d := a[|a| - 1], b[|b| - 1];
      BarFreeDetermines(d, d.prevHash, e, e.prevHash);
      SameFieldsSameEntry(d, e);
      SameTextsSameLog(h, a[..|a| - 1], b[..|b| - 1]);
    }
  }
}
