/** Pages of memory as bytes: a word is eight of them, little end first. */
module PageBytes {
  import opened Basics
  import opened Sv39

  const PAGE: nat := 4096

  function WordOf(b: seq<Byte>): (w: nat)
  {
    if b == [] then 0 else b[0] as int + 256 * WordOf(b[1..])
  }

  /** Byte i of a word. */
  function ByteOf(w: nat, i: nat): (b: Byte)
  {
    if i == 0 then w % 256 else ByteOf(w / 256, i - 1)
  }

  lemma {:induction false} ByteBack(b: seq<Byte>, i: nat)
    requires i < |b|
    ensures ByteOf(WordOf(b), i) == b[i]
  {
    if i > 0 {
      ByteBack(b[1..], i - 1);
    }
  }

  /** Little end first. */
  lemma WordIs(b: seq<Byte>)
    requires |b| == 8
    ensures WordOf(b)
         == b[0] as int + 0x100 * (b[1] as int + 0x100 * (b[2] as int + 0x100 * (b[3] as int + 0x100 * (b[4] as int
          + 0x100 * (b[5] as int + 0x100 * (b[6] as int + 0x100 * b[7] as int))))))
  {
    WordStep(b);
    WordStep(b[1..]);
    WordStep(b[2..]);
    WordStep(b[3..]);
    WordStep(b[4..]);
    WordStep(b[5..]);
    WordStep(b[6..]);
    WordStep(b[7..]);
  }

  lemma WordStep(b: seq<Byte>)
    requires b != []
    ensures WordOf(b) == b[0] as int + 256 * WordOf(b[1..])
  {
  }

  function WordsOf(page: seq<Byte>): (words: Words)
    requires |page| == PAGE
    ensures |words| == NPTE
  {
    seq(NPTE, k requires 0 <= k < NPTE => WordOf(page[8 * k..8 * k + 8]))
  }

  function BytesOf(words: Words): (page: seq<Byte>)
    requires |words| == NPTE
    ensures |page| == PAGE
  {
    seq(PAGE, i requires 0 <= i < PAGE => ByteOf(words[i / 8], i % 8))
  }

  /** What is stored is what is read. */
  lemma BytesBack(page: seq<Byte>)
    requires |page| == PAGE
    ensures BytesOf(WordsOf(page)) == page
  {
    forall i | 0 <= i < PAGE ensures BytesOf(WordsOf(page))[i] == page[i] {
      var k := i / 8;
      assert page[8 * k..8 * k + 8][i % 8] == page[i];
      ByteBack(page[8 * k..8 * k + 8], i % 8);
    }
  }

  lemma {:induction false} ByteOfZero(i: nat)
    ensures ByteOf(0, i) == 0
  {
    if i > 0 {
      ByteOfZero(i - 1);
    }
  }

  lemma ZeroBytes(i: nat)
    requires i < PAGE
    ensures BytesOf(Fill(0))[i] == 0
  {
    ByteOfZero(i % 8);
  }
}
