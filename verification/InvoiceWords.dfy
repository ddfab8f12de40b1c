/**
  Five-bit words and bytes of an invoice: the regrouping of bech32 both ways, and the bytes that an
  invoice signature covers (src/flashnet/lightning-quote-validation.ts).
 */
module InvoiceWords {
  import opened Common
  import opened Bolt11Tags

  // ----- bits of a number

  function Pow2(k: nat): (p: nat)
    ensures p > 0
  {
    if k == 0 then 1 else Pow2(k - 1) * 2
  }

  lemma Widths()
    ensures Pow2(5) == 32 && Pow2(8) == 256
  {
    assert Pow2(3) == 8;
    assert Pow2(6) == 64;
  }

  /** The low `width` bits of n, the highest first. */
  function Bits(n: nat, width: nat): (b: seq<bool>)
    ensures |b| == width
  {
    if width == 0 then [] else Bits(n / 2, width - 1) + [n % 2 == 1]
  }

  function FromBits(b: seq<bool>): nat {
    if b == [] then 0 else FromBits(b[..|b| - 1]) * 2 + if b[|b| - 1] then 1 else 0
  }

  lemma {:induction false} FromBitsInverts(n: nat, width: nat)
    requires n < Pow2(width)
    ensures FromBits(Bits(n, width)) == n
  {
    if width > 0 {
      FromBitsInverts(n / 2, width - 1);
      assert Bits(n, width)[..width - 1] == Bits(n / 2, width - 1);
    }
  }

  lemma {:induction false} BitsInvert(b: seq<bool>)
    ensures FromBits(b) < Pow2(|b|) && Bits(FromBits(b), |b|) == b
  {
    if b != [] {
      BitsInvert(b[..|b| - 1]);
      assert b == b[..|b| - 1] + [b[|b| - 1]];
    }
  }

  /** The word of five bits and the byte of eight. */
  function WordFrom(b: seq<bool>): Word
    requires |b| == 5
  {
    Widths();
    BitsInvert(b);
    FromBits(b)
  }

  function ByteFrom(b: seq<bool>): Byte
    requires |b| == 8
  {
    Widths();
    BitsInvert(b);
    FromBits(b)
  }

  lemma WordOfBits(v: Word)
    ensures WordFrom(Bits(v, 5)) == v
  {
    Widths();
    FromBitsInverts(v, 5);
  }

  lemma ByteOfBits(v: Byte)
    ensures ByteFrom(Bits(v, 8)) == v
  {
    Widths();
    FromBitsInverts(v, 8);
  }

  // ----- bits of words and of bytes

  function WordBits(words: seq<Word>): (b: seq<bool>)
    ensures |b| == 5 * |words|
  {
    seq(5 * |words|, i requires 0 <= i < 5 * |words| => Bits(words[i / 5], 5)[i % 5])
  }

  function ByteBits(bytes: seq<Byte>): (b: seq<bool>)
    ensures |b| == 8 * |bytes|
  {
    seq(8 * |bytes|, i requires 0 <= i < 8 * |bytes| => Bits(bytes[i / 8], 8)[i % 8])
  }

  function GatherWords(b: seq<bool>, n: nat): (v: seq<Word>)
    requires |b| == 5 * n
    ensures |v| == n
  {
    seq(n, i requires 0 <= i < n => WordFrom(b[5 * i..5 * i + 5]))
  }

  function GatherBytes(b: seq<bool>, n: nat): (v: seq<Byte>)
    requires |b| == 8 * n
    ensures |v| == n
  {
    seq(n, i requires 0 <= i < n => ByteFrom(b[8 * i..8 * i + 8]))
  }

  lemma DivFive(i: nat, j: nat)
    requires j < 5
    ensures (5 * i + j) / 5 == i && (5 * i + j) % 5 == j
  {
  }

  lemma DivEight(i: nat, j: nat)
    requires j < 8
    ensures (8 * i + j) / 8 == i && (8 * i + j) % 8 == j
  {
  }

  /** The bits of word i stand at its place. */
  lemma WordAt(words: seq<Word>, i: nat)
    requires i < |words|
    ensures WordBits(words)[5 * i..5 * i + 5] == Bits(words[i], 5)
  {
    var g := WordBits(words)[5 * i..5 * i + 5];
    forall j | 0 <= j < 5
      ensures g[j] == Bits(words[i], 5)[j]
    {
      DivFive(i, j);
    }
  }

  lemma ByteAt(bytes: seq<Byte>, i: nat)
    requires i < |bytes|
    ensures ByteBits(bytes)[8 * i..8 * i + 8] == Bits(bytes[i], 8)
  {
    var g := ByteBits(bytes)[8 * i..8 * i + 8];
    forall j | 0 <= j < 8
      ensures g[j] == Bits(bytes[i], 8)[j]
    {
      DivEight(i, j);
    }
  }

  lemma WordsOfBits(words: seq<Word>)
    ensures GatherWords(WordBits(words), |words|) == words
  {
    forall i | 0 <= i < |words|
      ensures GatherWords(WordBits(words), |words|)[i] == words[i]
    {
      WordAt(words, i);
      WordOfBits(words[i]);
    }
  }

  lemma BytesOfBits(bytes: seq<Byte>)
    ensures GatherBytes(ByteBits(bytes), |bytes|) == bytes
  {
    forall i | 0 <= i < |bytes|
      ensures GatherBytes(ByteBits(bytes), |bytes|)[i] == bytes[i]
    {
      ByteAt(bytes, i);
      ByteOfBits(bytes[i]);
    }
  }

  /** The bit at i, seen in its group of five. */
  lemma BitInWord(b: seq<bool>, n: nat, i: nat)
    requires |b| == 5 * n && i < |b|
    ensures WordBits(GatherWords(b, n))[i] == b[i]
  {
    var k, j := i / 5, i % 5;
    BitsInvert(b[5 * k..5 * k + 5]);
    assert b[5 * k..5 * k + 5][j] == b[i];
  }

  lemma BitInByte(b: seq<bool>, n: nat, i: nat)
    requires |b| == 8 * n && i < |b|
    ensures ByteBits(GatherBytes(b, n))[i] == b[i]
  {
    var k, j := i / 8, i % 8;
    BitsInvert(b[8 * k..8 * k + 8]);
    assert b[8 * k..8 * k + 8][j] == b[i];
  }

  lemma BitsOfWords(b: seq<bool>, n: nat)
    requires |b| == 5 * n
    ensures WordBits(GatherWords(b, n)) == b
  {
    forall i | 0 <= i < |b|
      ensures WordBits(GatherWords(b, n))[i] == b[i]
    {
      BitInWord(b, n, i);
    }
  }

  lemma BitsOfBytes(b: seq<bool>, n: nat)
    requires |b| == 8 * n
    ensures ByteBits(GatherBytes(b, n)) == b
  {
    forall i | 0 <= i < |b|
      ensures ByteBits(GatherBytes(b, n))[i] == b[i]
    {
      BitInByte(b, n, i);
    }
  }

  lemma WordBitsAreInjective(a: seq<Word>, c: seq<Word>)
    requires |a| == |c| && WordBits(a) == WordBits(c)
    ensures a == c
  {
    WordsOfBits(a);
    WordsOfBits(c);
  }

  predicate AllFalse(b: seq<bool>) {
    forall i :: 0 <= i < |b| ==> !b[i]
  }

  function Falses(n: nat): (b: seq<bool>)
    ensures |b| == n && AllFalse(b)
  {
    seq(n, _ => false)
  }

  // ----- words and bytes

  /** fromWords: None where it throws, on a whole spare word or on spare bits that are set. */
  function FromWords(words: seq<Word>): Option<seq<Byte>> {
    var b := WordBits(words);
    var n := |b| / 8;
    if |b| - 8 * n >= 5 || !AllFalse(b[8 * n..]) then None else Some(GatherBytes(b[..8 * n], n))
  }

  /** toWords: the last word is filled with zero bits. */
  function ToWords(bytes: seq<Byte>): seq<Word> {
    var b := ByteBits(bytes);
    var n := (|b| + 4) / 5;
    GatherWords(b + Falses(5 * n - |b|), n)
  }

  /** Words whose bits are those of the bytes and some zeros read back as the bytes. */
  lemma ReadsBack(words: seq<Word>, bytes: seq<Byte>, spare: seq<bool>)
    requires WordBits(words) == ByteBits(bytes) + spare && |spare| < 5 && AllFalse(spare)
    ensures FromWords(words) == Some(bytes)
  {
    var b := WordBits(words);
    assert |b| / 8 == |bytes|;
    assert b[..8 * |bytes|] == ByteBits(bytes) && b[8 * |bytes|..] == spare;
    BytesOfBits(bytes);
  }

  lemma FilledUp(bytes: seq<Byte>, spare: seq<bool>, n: nat)
    requires 8 * |bytes| + |spare| == 5 * n && |spare| < 5 && AllFalse(spare)
    ensures FromWords(GatherWords(ByteBits(bytes) + spare, n)) == Some(bytes)
  {
    BitsOfWords(ByteBits(bytes) + spare, n);
    ReadsBack(GatherWords(ByteBits(bytes) + spare, n), bytes, spare);
  }

  /** Every byte string survives its words. */
  lemma WordsRoundTrip(bytes: seq<Byte>)
    ensures FromWords(ToWords(bytes)) == Some(bytes)
  {
    var n := (|ByteBits(bytes)| + 4) / 5;
    FilledUp(bytes, Falses(5 * n - |ByteBits(bytes)|), n);
  }

  /** Words that fill whole bytes never throw, and keep their bits. */
  lemma WholeWords(words: seq<Word>)
    requires |words| % 8 == 0
    ensures FromWords(words).Some? && |FromWords(words).value| == |words| / 8 * 5
    ensures ByteBits(FromWords(words).value) == WordBits(words)
  {
    var n := |words| / 8 * 5;
    WholeBits(words, n);
    BitsOfBytes(WordBits(words), n);
  }

  lemma WholeBits(words: seq<Word>, n: nat)
    requires |WordBits(words)| == 8 * n
    ensures FromWords(words) == Some(GatherBytes(WordBits(words), n))
  {
    var b := WordBits(words);
    assert |b| / 8 == n;
    assert b[..8 * n] == b && b[8 * n..] == [];
  }

  // ----- what the signature covers

  /** Words filled up with zero words to whole bytes. */
  function Padded(words: seq<Word>): (p: seq<Word>)
    ensures |p| % 8 == 0 && |words| <= |p| < |words| + 8 && words <= p
  {
    words + seq((8 - |words| % 8) % 8, _ => 0)
  }

  /** The signed bytes of the data part: as many as its own bits reach into. */
  function SignedBytes(words: seq<Word>): seq<Byte> {
    WholeWords(Padded(words));
    FromWords(Padded(words)).value[..(|words| * 5 + 7) / 8]
  }

  lemma FewerBytes(bytes: seq<Byte>, c: nat)
    requires c <= |bytes|
    ensures ByteBits(bytes[..c]) <= ByteBits(bytes)
  {
  }

  lemma FewerWords(words: seq<Word>, c: nat)
    requires c <= |words|
    ensures WordBits(words[..c]) <= WordBits(words)
  {
  }

  lemma SignedBits(words: seq<Word>)
    ensures WordBits(words) <= ByteBits(SignedBytes(words))
  {
    var p, c := Padded(words), (|words| * 5 + 7) / 8;
    WholeWords(p);
    FewerBytes(FromWords(p).value, c);
    assert p[..|words|] == words;
    FewerWords(p, |words|);
    PrefixesNest(WordBits(words), ByteBits(SignedBytes(words)), WordBits(p));
  }

  lemma PrefixesNest<T>(a: seq<T>, c: seq<T>, whole: seq<T>)
    requires a <= whole && c <= whole && |a| <= |c|
    ensures a <= c
  {
  }

  /** Two data parts of one length with the same signed bytes are the same. */
  lemma SignedBytesAreInjective(a: seq<Word>, c: seq<Word>)
    requires |a| == |c| && SignedBytes(a) == SignedBytes(c)
    ensures a == c
  {
    SignedBits(a);
    SignedBits(c);
    WordBitsAreInjective(a, c);
  }
}
