/** The texts of a fixture scenario; its id also names the fixture's file. */
module ScenarioText {
  import opened Xorshift

  // ----- the slug -----

  /** Which characters count as letters and digits is Unicode's to say. */
  type CharClass = char -> bool

  function Lower(c: char): char {
    if 'A' <= c <= 'Z' then c - 'A' + 'a' else c
  }

  function Plain(alphanumeric: CharClass, text: string): (r: string)
    ensures |r| == |text| && forall i :: 0 <= i < |r| ==> r[i] == if alphanumeric(text[i]) then Lower(text[i]) else '-'
  {
    seq(|text|, i requires 0 <= i < |text| => if alphanumeric(text[i]) then Lower(text[i]) else '-')
  }

  function TrimFront(text: string): string {
    if text != [] && text[0] == '-' then TrimFront(text[1..]) else text
  }

  function TrimBack(text: string): string {
    if text != [] && text[|text| - 1] == '-' then TrimBack(text[..|text| - 1]) else text
  }

  function Slug(alphanumeric: CharClass, dimension: string): string {
    TrimBack(TrimFront(Plain(alphanumeric, dimension)))
  }

  predicate Dashes(text: string) {
    forall i :: 0 <= i < |text| ==> text[i] == '-'
  }

  lemma {:induction false} FrontTrimmed(text: string) returns (k: nat)
    ensures k <= |text| && Dashes(text[..k]) && TrimFront(text) == text[k..]
    ensures k < |text| ==> text[k] != '-'
  {
    k := 0;
    if text != [] && text[0] == '-' {
      var j := FrontTrimmed(text[1..]);
      k := j + 1;
      assert text[..k] == ['-'] + text[1..][..j] && text[1..][j..] == text[k..];
    }
  }

  lemma {:induction false} BackTrimmed(text: string) returns (k: nat)
    ensures k <= |text| && Dashes(text[k..]) && TrimBack(text) == text[..k]
    ensures k > 0 ==> text[k - 1] != '-'
  {
    k := |text|;
    if text != [] && text[k - 1] == '-' {
      var rest := text[..k - 1];
      var j := BackTrimmed(rest);
      assert text[j..] == rest[j..] + ['-'] && rest[..j] == text[..j];
      k := j;
    }
  }

  lemma BothEndsTrimmed(text: string) returns (i: nat, j: nat)
    ensures i <= j <= |text| && TrimBack(TrimFront(text)) == text[i..j] && Dashes(text[..i]) && Dashes(text[j..])
    ensures i < j ==> text[i] != '-' && text[j - 1] != '-'
  {
    hide Dashes;
    i := FrontTrimmed(text);
    var rest := text[i..];
    var k := BackTrimmed(rest);
    j := i + k;
    assert rest[k..] == text[j..] && rest[..k] == text[i..j];
    if k > 0 {
      assert rest[k - 1] == text[j - 1];
    }
  }

  /** Only dashes are cut off, all of them at both ends. */
  lemma SlugIsTrimmed(alphanumeric: CharClass, dimension: string) returns (i: nat, j: nat)
    ensures var plain := Plain(alphanumeric, dimension);
            && i <= j <= |plain| && Slug(alphanumeric, dimension) == plain[i..j]
            && Dashes(plain[..i]) && Dashes(plain[j..])
            && (i < j ==> plain[i] != '-' && plain[j - 1] != '-')
  {
    i, j := BothEndsTrimmed(Plain(alphanumeric, dimension));
  }

  /** Capital letters become small ones, and nothing else changes. */
  lemma LowerMeans(k: nat)
    requires k < 26
    ensures Lower("ABCDEFGHIJKLMNOPQRSTUVWXYZ"[k]) == "abcdefghijklmnopqrstuvwxyz"[k]
    ensures forall c: char :: c !in "ABCDEFGHIJKLMNOPQRSTUVWXYZ" ==> Lower(c) == c
  {
    var capitals := "ABCDEFGHIJKLMNOPQRSTUVWXYZ";
    forall c: char | 'A' <= c <= 'Z' ensures c in capitals {
      assert capitals[c as int - 65] == c;
    }
  }

  // ----- the id -----

  function Bit(w: Word, i: nat): nat {
    if i in w then 1 else 0
  }

  /** Four bits of a word. */
  function Nibble(w: Word, k: nat): (n: nat)
    ensures n < 16
  {
    8 * Bit(w, 4 * k + 3) + 4 * Bit(w, 4 * k + 2) + 2 * Bit(w, 4 * k + 1) + Bit(w, 4 * k)
  }

  function HexDigit(n: nat): char
    requires n < 16
  {
    "0123456789abcdef"[n]
  }

  /** The low half of the word with all its eight digits. */
  function Hex(w: Word): (text: string)
    ensures |text| == 8
  {
    seq(8, i requires 0 <= i < 8 => HexDigit(Nibble(w, 7 - i)))
  }

  function Id(alphanumeric: CharClass, dimension: string, seed: Word): string {
    "adv-" + Slug(alphanumeric, dimension) + "-" + Hex(seed)
  }

  function Name(dimension: string): string {
    "Adversarial: " + dimension
  }

  function Description(category: string, dimension: string): string {
    "Synthetic adversarial fixture targeting " + category + " coverage gap: " + dimension
    + ". Tests hard migration paths with intentionally complex patterns."
  }

  predicate SameLowHalf(x: Word, y: Word) {
    forall i :: 0 <= i < 32 ==> (i in x <==> i in y)
  }

  lemma HexDigitsDiffer(m: nat, n: nat)
    requires m < 16 && n < 16 && HexDigit(m) == HexDigit(n)
    ensures m == n
  {
  }

  lemma NibbleBits(x: Word, y: Word, k: nat)
    ensures Nibble(x, k) == Nibble(y, k) <==> forall i :: 4 * k <= i < 4 * k + 4 ==> (i in x <==> i in y)
  {
    if Nibble(x, k) != Nibble(y, k) {
      assert exists i :: 4 * k <= i < 4 * k + 4 && Bit(x, i) != Bit(y, i);
    }
  }

  lemma HexIsLowHalf(x: Word, y: Word)
    ensures Hex(x) == Hex(y) <==> SameLowHalf(x, y)
  {
    hide Nibble, HexDigit;
    if Hex(x) == Hex(y) {
      forall i | 0 <= i < 32 ensures i in x <==> i in y {
        var k := i / 4;
        assert Hex(x)[7 - k] == Hex(y)[7 - k];
        HexDigitsDiffer(Nibble(x, k), Nibble(y, k));
        NibbleBits(x, y, k);
      }
    } else {
      var j :| 0 <= j < 8 && Hex(x)[j] != Hex(y)[j];
      NibbleBits(x, y, 7 - j);
    }
  }

  /** Two scenarios share an id, and so a file, exactly when their slugs agree and their seeds agree in the low half. */
  lemma IdsCollideIff(alphanumeric: CharClass, d: string, x: Word, e: string, y: Word)
    ensures Id(alphanumeric, d, x) == Id(alphanumeric, e, y) <==>
              Slug(alphanumeric, d) == Slug(alphanumeric, e) && SameLowHalf(x, y)
  {
    hide Slug, Hex, SameLowHalf;
    HexIsLowHalf(x, y);
    var a, b := Slug(alphanumeric, d), Slug(alphanumeric, e);
    if Id(alphanumeric, d, x) == Id(alphanumeric, e, y) {
      IdParts(a, Hex(x), Id(alphanumeric, d, x));
      IdParts(b, Hex(y), Id(alphanumeric, e, y));
    }
  }

  /** The hexadecimal digits have a fixed place at the end. */
  lemma IdParts(slug: string, digits: string, id: string)
    requires id == "adv-" + slug + "-" + digits && |digits| == 8
    ensures |id| >= 13 && slug == id[4..|id| - 9] && digits == id[|id| - 8..]
  {
  }

  // ----- what the digits say -----

  function DigitValue(c: char): nat {
    if '0' <= c <= '9' then c as nat - 48 else if 'a' <= c <= 'f' then c as nat - 87 else 16
  }

  /** Digit `k`, counted from the end, reads back as the four bits from `4 * k` on. */
  lemma HexReadsBack(w: Word, k: nat)
    requires k < 8
    ensures DigitValue(Hex(w)[7 - k]) ==
            (if 4 * k in w then 1 else 0) + (if 4 * k + 1 in w then 2 else 0) + (if 4 * k + 2 in w then 4 else 0)
            + (if 4 * k + 3 in w then 8 else 0)
  {
    DigitReadsBack(Nibble(w, k));
    hide HexDigit;
  }

  lemma DigitReadsBack(n: nat)
    requires n < 16
    ensures DigitValue(HexDigit(n)) == n
  {
  }

  /** The texts of the scenario around what varies. */
  lemma TextsAre(alphanumeric: CharClass, category: string, dimension: string, seed: Word)
    ensures Id(alphanumeric, dimension, seed) == "adv-" + Slug(alphanumeric, dimension) + "-" + Hex(seed)
    ensures Name(dimension)[..13] == "Adversarial: " && Name(dimension)[13..] == dimension
    ensures var d := Description(category, dimension);
            && |d| == 120 + |category| + |dimension| && d[40..40 + |category|] == category
            && d[55 + |category|..55 + |category| + |dimension|] == dimension
  {
  }
}
