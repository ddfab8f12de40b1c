/**
  Invoices put together from their parts (section "Data Part" of BOLT #11), and what the validation
  reads back from them: the tags by their letters, the amount in satoshis, the expiry, the signature.
 */
module PrintedInvoices {
  import opened Common
  import opened Bolt11Tags
  import opened InvoiceWords
  import opened QuoteValidation

  // ----- tags by their letters

  /** The letter of a word in the bech32 alphabet (BIP 173). */
  function LetterOf(w: Word): char {
    match w
    case 0 => 'q'
    case 1 => 'p'
    case 2 => 'z'
    case 3 => 'r'
    case 4 => 'y'
    case 5 => '9'
    case 6 => 'x'
    case 7 => '8'
    case 8 => 'g'
    case 9 => 'f'
    case 10 => '2'
    case 11 => 't'
    case 12 => 'v'
    case 13 => 'd'
    case 14 => 'w'
    case 15 => '0'
    case 16 => 's'
    case 17 => '3'
    case 18 => 'j'
    case 19 => 'n'
    case 20 => '5'
    case 21 => '4'
    case 22 => 'k'
    case 23 => 'h'
    case 24 => 'c'
    case 25 => 'e'
    case 26 => '6'
    case 27 => 'm'
    case 28 => 'u'
    case 29 => 'a'
    case 30 => '7'
    case _ => 'l'
  }

  /** The tags of the validation are p, x, d, s, n and h, and these are the tags that may appear once. */
  lemma TagLetters(w: Word)
    ensures LetterOf(w) == 'p' <==> w == PAYMENT_HASH
    ensures LetterOf(w) == 'x' <==> w == EXPIRY
    ensures LetterOf(w) == 'd' <==> w == DESCRIPTION
    ensures LetterOf(w) == 's' <==> w == SECRET
    ensures LetterOf(w) == 'n' <==> w == PAYEE
    ensures LetterOf(w) == 'h' <==> w == DESCRIPTION_HASH
    ensures w in SINGLE_TAGS <==> LetterOf(w) in {'p', 'x', 'd', 's', 'n', 'h'}
  {
  }

  /** A field of this letter holds this data. */
  predicate HoldsAt(fields: seq<Field>, letter: char, data: seq<Word>, i: int) {
    0 <= i < |fields| && LetterOf(fields[i].tag) == letter && fields[i].data == data
  }

  ghost predicate Holds(fields: seq<Field>, letter: char, data: seq<Word>) {
    exists i :: HoldsAt(fields, letter, data, i)
  }

  ghost predicate Bears(fields: seq<Field>, letter: char) {
    exists i :: 0 <= i < |fields| && LetterOf(fields[i].tag) == letter
  }

  /** A single-use tag is read as its only field. */
  lemma {:induction false} OnlyField(fields: seq<Field>, i: nat)
    requires SingleUse(fields) && i < |fields| && fields[i].tag in SINGLE_TAGS
    ensures fields[i].tag in LastOf(fields) && LastOf(fields)[fields[i].tag] == fields[i].data
  {
    var last := |fields| - 1;
    if i < last {
      var init := fields[..last];
      assert init + [fields[last]] == fields;
      SingleUsePrefix(init, [fields[last]]);
      OnlyField(init, i);
    }
  }

  lemma TagHeldIff(fields: seq<Field>, tag: Word, data: seq<Word>)
    requires SingleUse(fields) && tag in SINGLE_TAGS
    requires forall w: Word :: LetterOf(w) == LetterOf(tag) <==> w == tag
    ensures tag in LastOf(fields) <==> Bears(fields, LetterOf(tag))
    ensures tag in LastOf(fields) && LastOf(fields)[tag] == data <==> Holds(fields, LetterOf(tag), data)
  {
    LastOfKeys(fields, tag);
    if tag in LastOf(fields) {
      var i :| 0 <= i < |fields| && fields[i].tag == tag;
      OnlyField(fields, i);
      assert HoldsAt(fields, LetterOf(tag), LastOf(fields)[tag], i);
    }
    forall i | HoldsAt(fields, LetterOf(tag), data, i)
      ensures tag in LastOf(fields) && LastOf(fields)[tag] == data
    {
      OnlyField(fields, i);
    }
  }

  /** What the fields of a printed invoice say about a tag with this letter. */
  lemma LetterHeldIff(fields: seq<Field>, tag: Word, letter: char, data: seq<Word>)
    requires SingleUse(fields) && letter == LetterOf(tag) && letter in {'p', 'x', 'd', 's', 'n', 'h'}
    ensures tag in LastOf(fields) <==> Bears(fields, letter)
    ensures tag in LastOf(fields) && LastOf(fields)[tag] == data <==> Holds(fields, letter, data)
  {
    TagLetters(tag);
    forall w: Word ensures LetterOf(w) == letter <==> w == tag {
      TagLetters(w);
    }
    TagHeldIff(fields, tag, data);
  }

  /** Some field of this letter has as many words. */
  ghost predicate Long(fields: seq<Field>, letter: char, n: nat) {
    exists i :: 0 <= i < |fields| && LetterOf(fields[i].tag) == letter && |fields[i].data| == n
  }

  lemma LongIff(fields: seq<Field>, tag: Word, letter: char, n: nat)
    requires SingleUse(fields) && letter == LetterOf(tag) && letter in {'p', 'x', 'd', 's', 'n', 'h'}
    ensures tag in LastOf(fields) <==> Bears(fields, letter)
    ensures tag in LastOf(fields) && |LastOf(fields)[tag]| == n <==> Long(fields, letter, n)
  {
    LetterHeldIff(fields, tag, letter, []);
    if tag in LastOf(fields) {
      var data := LastOf(fields)[tag];
      LetterHeldIff(fields, tag, letter, data);
      var i :| HoldsAt(fields, letter, data, i);
    }
    forall i | 0 <= i < |fields| && LetterOf(fields[i].tag) == letter && |fields[i].data| == n
      ensures tag in LastOf(fields) && |LastOf(fields)[tag]| == n
    {
      assert HoldsAt(fields, letter, fields[i].data, i);
      LetterHeldIff(fields, tag, letter, fields[i].data);
    }
  }

  /**
    The required tags: a payment hash and a secret of 52 words, and a description or a description
    hash of 52 words, but not both.
   */
  ghost predicate WellTagged(fields: seq<Field>) {
    && Long(fields, 'p', 52) && Long(fields, 's', 52)
    && ((Bears(fields, 'd') && !Bears(fields, 'h')) || (!Bears(fields, 'd') && Long(fields, 'h', 52)))
  }

  lemma RequiredTagsIff(fields: seq<Field>)
    requires SingleUse(fields)
    ensures RequiredTags(LastOf(fields)) <==> WellTagged(fields)
  {
    LongIff(fields, PAYMENT_HASH, 'p', 52);
    LongIff(fields, SECRET, 's', 52);
    LongIff(fields, DESCRIPTION, 'd', 52);
    LongIff(fields, DESCRIPTION_HASH, 'h', 52);
  }

  // ----- the amount

  lemma PrefixAsksIff(n: nat, m: Multiplier, sats: nat)
    ensures AsksFor("lnbc" + Decimal(n) + Letter(m), sats) <==> PicoBtc(n, m) == sats * PICO_PER_SAT
  {
    PrefixRoundTrip(n, m);
  }

  /** n with a multiplier letter asks for these satoshis: a bitcoin has a hundred million of them. */
  predicate Costs(n: nat, letter: string, sats: nat) {
    || (letter == "" && sats == n * 100_000_000)
    || (letter == "m" && sats == n * 100_000)
    || (letter == "u" && sats == n * 100)
    || (letter == "n" && sats * 10 == n)
    || (letter == "p" && sats * 10_000 == n)
  }

  lemma CostsIff(n: nat, m: Multiplier, sats: nat)
    ensures Costs(n, Letter(m), sats) <==> PicoBtc(n, m) == sats * PICO_PER_SAT
  {
  }

  /** An amount in decimal with one of the five multipliers asks for the satoshis it costs. */
  lemma AmountIff(n: nat, letter: string, sats: nat)
    requires letter in {"", "m", "u", "n", "p"}
    ensures AsksFor("lnbc" + Decimal(n) + letter, sats) <==> Costs(n, letter, sats)
  {
    var m := if letter == "" then Whole else if letter == "m" then Milli else if letter == "u" then Micro
             else if letter == "n" then Nano else Pico;
    PrefixAsksIff(n, m, sats);
    CostsIff(n, m, sats);
  }

  // ----- words read back are the words of their bytes

  lemma SpareBits(words: seq<Word>, bytes: seq<Byte>)
    requires FromWords(words) == Some(bytes)
    ensures 8 * |bytes| <= 5 * |words| < 8 * |bytes| + 5
    ensures WordBits(words) == ByteBits(bytes) + Falses(5 * |words| - 8 * |bytes|)
  {
    var b := WordBits(words);
    var n := |b| / 8;
    BitsOfBytes(b[..8 * n], n);
    assert b == b[..8 * n] + b[8 * n..];
  }

  /** Only the words of a byte string read back as it. */
  lemma WordsOfBytesIff(words: seq<Word>, bytes: seq<Byte>)
    ensures FromWords(words) == Some(bytes) <==> words == ToWords(bytes)
  {
    WordsRoundTrip(bytes);
    if FromWords(words) == Some(bytes) {
      SpareBits(words, bytes);
      WordsOfBits(words);
    }
  }

  // ----- the parts of an invoice

  datatype Parts = Parts(n: nat, letter: string, time: nat, fields: seq<Field>, rs: seq<Byte>, recovery: Byte)

  /** The timestamp has 35 bits, each field fits its length words, and r and s have 32 bytes each. */
  predicate Sensible(p: Parts) {
    p.letter in {"", "m", "u", "n", "p"} && p.time < 0x8_0000_0000 && Printable(p.fields) && |p.rs| == 64
  }

  /** The invoice of these parts: amount in front, then time, fields, signature and recovery id. */
  function Assemble(p: Parts): Invoice
    requires Sensible(p)
  {
    Invoice("lnbc" + Decimal(p.n) + p.letter, TimestampWords(p.time) + Print(p.fields) + ToWords(p.rs + [p.recovery]))
  }

  lemma SlicesOfThree(a: seq<Word>, b: seq<Word>, c: seq<Word>)
    requires |a| == 7 && |c| == 104
    ensures var w := a + b + c;
            w[..7] == a && Body(w) == b && |w| >= 111 && w[|w| - 104..] == c
  {
  }

  /** The time, the fields and the signature are found in their places. */
  lemma AssembledParts(p: Parts)
    requires Sensible(p)
    ensures var w := Assemble(p).words;
            && |w| >= 111 && Number(w[..7]) == p.time && Printing(Body(w), p.fields)
            && SignatureBytes(w) == p.rs + [p.recovery]
  {
    SlicesOfThree(TimestampWords(p.time), Print(p.fields), ToWords(p.rs + [p.recovery]));
    TimestampRoundTrip(p.time);
    WordsRoundTrip(p.rs + [p.recovery]);
  }

  // ----- the expiry

  /** The value of words by their places: each word counts 32 times as much as the one behind it. */
  function ByPlaces(words: seq<Word>): nat {
    if words == [] then 0
    else
      var high: int := words[0];
      high * Pow32(|words| - 1) + ByPlaces(words[1..])
  }

  lemma Regrouped(w: nat, p: nat)
    ensures w * (p * 32) == (w * p) * 32
  {
  }

  lemma {:induction false} OnePlaceMore(words: seq<Word>, low: Word)
    ensures ByPlaces(words + [low]) == ByPlaces(words) * 32 + low
  {
    if words != [] {
      assert (words + [low])[1..] == words[1..] + [low];
      OnePlaceMore(words[1..], low);
      Regrouped(words[0], Pow32(|words| - 1));
    } else {
      assert ([] + [low])[1..] == [];
    }
  }

  lemma {:induction false} NumberIsByPlaces(words: seq<Word>)
    ensures Number(words) == ByPlaces(words)
  {
    if words != [] {
      var init, last := words[..|words| - 1], words[|words| - 1];
      NumberIsByPlaces(init);
      OnePlaceMore(init, last);
      assert words == init + [last];
    }
  }

  /** The invoice lasts e seconds: its x field says so, or it has none and lasts an hour. */
  ghost predicate Lasts(fields: seq<Field>, e: nat) {
    || (!Bears(fields, 'x') && e == 3600)
    || exists data :: Holds(fields, 'x', data) && e == ByPlaces(data)
  }

  lemma LifetimeLasts(fields: seq<Field>)
    requires SingleUse(fields)
    ensures Lasts(fields, Lifetime(LastOf(fields)))
    ensures forall e :: Lasts(fields, e) ==> e == Lifetime(LastOf(fields))
  {
    var tags := LastOf(fields);
    LetterHeldIff(fields, EXPIRY, 'x', []);
    if EXPIRY in tags {
      LetterHeldIff(fields, EXPIRY, 'x', tags[EXPIRY]);
      NumberIsByPlaces(tags[EXPIRY]);
    }
    forall data | Holds(fields, 'x', data) ensures EXPIRY in tags && tags[EXPIRY] == data {
      LetterHeldIff(fields, EXPIRY, 'x', data);
    }
  }

  /** An invoice expires its lifetime after its time, in milliseconds. */
  lemma ExpiryOfPrinted(p: Parts, e: nat)
    requires Sensible(p) && SingleUse(p.fields) && Lasts(p.fields, e)
    ensures |Assemble(p).words| >= 111 && InvoiceExpiry(Assemble(p).words, LastOf(p.fields)) == (p.time + e) * 1000
  {
    AssembledParts(p);
    LifetimeLasts(p.fields);
  }

  // ----- the signature

  /** The key of 33 bytes that the n field names. */
  ghost predicate Names(fields: seq<Field>, key: seq<Byte>) {
    |key| == 33 && Holds(fields, 'n', ToWords(key))
  }

  /**
    The signature holds: with an n field, s is at most half the order of the curve and the named key
    verifies; without one, a key is recovered and verifies. The recovery id is below four.
   */
  ghost predicate SignatureHolds(p: Parts, signing: seq<Byte>, curve: Curve)
    requires |p.rs| == 64
  {
    && p.recovery < 4
    && if Bears(p.fields, 'n') then
        && BigEndian(p.rs[32..]) * 2 <= 0xfffffffffffffffffffffffffffffffebaaedce6af48a03bbfd25e8cd0364141
        && exists key :: Names(p.fields, key) && curve.verify(signing, key, p.rs)
      else
        && curve.recover([p.recovery] + p.rs, signing).Some?
        && curve.verify(signing, curve.recover([p.recovery] + p.rs, signing).value, p.rs)
  }

  lemma HalfOrder(s: nat)
    ensures s > CURVE_ORDER / 2 <==> s * 2 > 0xfffffffffffffffffffffffffffffffebaaedce6af48a03bbfd25e8cd0364141
  {
  }

  lemma NamedKeyIff(fields: seq<Field>, key: seq<Byte>)
    requires SingleUse(fields) && |key| == 33
    ensures Names(fields, key) <==> PAYEE in LastOf(fields) && FromWords(LastOf(fields)[PAYEE]) == Some(key)
  {
    LetterHeldIff(fields, PAYEE, 'n', ToWords(key));
    if PAYEE in LastOf(fields) { WordsOfBytesIff(LastOf(fields)[PAYEE], key); }
  }

  lemma AssembledIsAscii(p: Parts)
    requires Sensible(p)
    ensures Ascii(Assemble(p).prefix)
  {
    var d := Decimal(p.n);
    assert forall i :: 0 <= i < |d| ==> Digit(d[i]);
  }

  lemma SplitSignature(rs: seq<Byte>, v: Byte, sig: seq<Byte>)
    requires |rs| == 64 && sig == rs + [v]
    ensures sig[64] == v && sig[..64] == rs && sig[32..64] == rs[32..]
  {
  }

  lemma SignedIff(p: Parts, curve: Curve)
    requires Sensible(p) && SingleUse(p.fields)
    ensures Ascii(Assemble(p).prefix) && |Assemble(p).words| >= 111
    ensures Signed(Assemble(p), LastOf(p.fields), curve) <==> SignatureHolds(p, SigningBytes(Assemble(p)), curve)
  {
    var inv, tags := Assemble(p), LastOf(p.fields);
    AssembledIsAscii(p);
    AssembledParts(p);
    SplitSignature(p.rs, p.recovery, SignatureBytes(inv.words));
    LetterHeldIff(p.fields, PAYEE, 'n', []);
    HalfOrder(BigEndian(p.rs[32..]));
    forall key: seq<Byte> | |key| == 33
      ensures Names(p.fields, key) <==> PAYEE in tags && FromWords(tags[PAYEE]) == Some(key)
    {
      NamedKeyIff(p.fields, key);
    }
  }

  // ----- the description hash

  function Nibble(c: char): int {
    if '0' <= c <= '9' then c as int - '0' as int
    else if 'a' <= c <= 'f' then c as int - 'a' as int + 10
    else if 'A' <= c <= 'F' then c as int - 'A' as int + 10
    else -1
  }

  /** The text is the bytes in hexadecimal, in either case. */
  predicate Spells(text: string, bytes: seq<Byte>) {
    && |text| == 2 * |bytes|
    && forall i :: 0 <= i < |bytes| ==> Nibble(text[2 * i]) == bytes[i] / 16 && Nibble(text[2 * i + 1]) == bytes[i] % 16
  }

  lemma NibbleIff(c: char, n: int)
    requires 0 <= n < 16
    ensures HexDigit(n) == LowerChar(c) <==> Nibble(c) == n
  {
  }

  lemma SpellsShorter(text: string, bytes: seq<Byte>)
    requires |text| == 2 * |bytes| && bytes != []
    ensures Spells(text, bytes) <==>
            Nibble(text[0]) == bytes[0] / 16 && Nibble(text[1]) == bytes[0] % 16 && Spells(text[2..], bytes[1..])
  {
    var t, b := text[2..], bytes[1..];
    assert forall i :: 0 <= i < |b| ==> b[i] == bytes[i + 1] && t[2 * i] == text[2 * (i + 1)]
                                        && t[2 * i + 1] == text[2 * (i + 1) + 1];
    if Spells(t, b) && Nibble(text[0]) == bytes[0] / 16 && Nibble(text[1]) == bytes[0] % 16 {
      forall i | 0 <= i < |bytes|
        ensures Nibble(text[2 * i]) == bytes[i] / 16 && Nibble(text[2 * i + 1]) == bytes[i] % 16
      {
        if i > 0 {
          assert b[i - 1] == bytes[i];
          assert t[2 * (i - 1)] == text[2 * i] && t[2 * (i - 1) + 1] == text[2 * i + 1];
        }
      }
    }
  }

  lemma {:induction false} LowerLength(text: string)
    ensures |Lower(text)| == |text|
  {
    if text != "" { LowerLength(text[1..]); }
  }

  lemma {:induction false} HexLength(bytes: seq<Byte>)
    ensures |Hex(bytes)| == 2 * |bytes|
  {
    if bytes != [] { HexLength(bytes[1..]); }
  }

  lemma {:induction false} SpellsIff(text: string, bytes: seq<Byte>)
    ensures Hex(bytes) == Lower(text) <==> Spells(text, bytes)
  {
    LowerLength(text);
    HexLength(bytes);
    if |text| == 2 * |bytes| && bytes != [] {
      SpellsIff(text[2..], bytes[1..]);
      SpellsShorter(text, bytes);
      NibbleIff(text[0], bytes[0] / 16);
      NibbleIff(text[1], bytes[0] % 16);
      var h, l := Hex(bytes), Lower(text);
      assert text[1..][1..] == text[2..];
      assert h[0] == HexDigit(bytes[0] / 16) && h[1] == HexDigit(bytes[0] % 16) && h[2..] == Hex(bytes[1..]);
      assert l[0] == LowerChar(text[0]) && l[1] == LowerChar(text[1]) && l[2..] == Lower(text[2..]);
      assert h == [h[0], h[1]] + h[2..] && l == [l[0], l[1]] + l[2..];
    }
  }

  /** The h field holds the bytes that the wanted text spells. */
  ghost predicate Described(fields: seq<Field>, text: string) {
    exists bytes :: Spells(text, bytes) && Holds(fields, 'h', ToWords(bytes))
  }

  lemma HashIff(fields: seq<Field>, text: string)
    requires SingleUse(fields)
    ensures HashAgrees(Some(text), LastOf(fields)) <==> Described(fields, text)
  {
    var tags := LastOf(fields);
    if HashAgrees(Some(text), tags) {
      var bytes := FromWords(tags[DESCRIPTION_HASH]).value;
      SpellsIff(text, bytes);
      WordsOfBytesIff(tags[DESCRIPTION_HASH], bytes);
      LetterHeldIff(fields, DESCRIPTION_HASH, 'h', ToWords(bytes));
    }
    if Described(fields, text) {
      var bytes :| Spells(text, bytes) && Holds(fields, 'h', ToWords(bytes));
      SpellsIff(text, bytes);
      LetterHeldIff(fields, DESCRIPTION_HASH, 'h', ToWords(bytes));
      WordsRoundTrip(bytes);
    }
  }

  // ----- the whole quote

  /** One to 38 decimal digits. */
  predicate Numeral(s: string) {
    1 <= |s| <= 38 && forall i :: 0 <= i < |s| ==> '0' <= s[i] <= '9'
  }

  predicate WholeNumber(r: real) {
    r >= 0.0 && r == r.Floor as real
  }

  /** One of the fields is not as the quote that was asked for must have it. */
  predicate Misshapen(q: Quote, sats: string, printed: Json -> string) {
    || !q.quoteId.Text? || !("q_" <= q.quoteId.text)
    || !q.receiveRequestId.Text? || q.receiveRequestId.text == ""
    || q.amountIn != Text(sats)
    || q.flexibleAmount !in {Undefined, Null, Flag(false), Num(0.0), Text("")}
    || q.amountMode !in {Undefined, Null, Text("exact_in")}
    || q.feeAsset != Text("USDB")
    || !q.route.List? || (exists i :: 0 <= i < |q.route.items| && !q.route.items[i].Text?)
    || !q.feeBps.Num? || !WholeNumber(q.feeBps.n)
    || !q.amounts.0.Text? || !Numeral(q.amounts.0.text) || !q.amounts.1.Text? || !Numeral(q.amounts.1.text)
    || !q.amounts.2.Text? || !Numeral(q.amounts.2.text) || !q.amounts.3.Text? || !Numeral(q.amounts.3.text)
    || (q.lockedMinAmountOut !in {Undefined, Null} &&
        !Numeral(if q.lockedMinAmountOut.Text? then q.lockedMinAmountOut.text else printed(q.lockedMinAmountOut)))
  }

  lemma NumeralIff(s: string)
    ensures AmountText(s) <==> Numeral(s)
  {
  }

  lemma ShapeIff(q: Quote, sats: string, printed: Json -> string)
    ensures WellShaped(q, sats, printed) <==> !Misshapen(q, sats, printed)
  {
    forall s ensures AmountText(s) <==> Numeral(s) {
      NumeralIff(s);
    }
  }

  /** The quote, with its invoice assembled from these parts, is in order for k satoshis. */
  ghost predicate InOrder(q: Quote, wanted: Option<string>, printed: Json -> string, curve: Curve,
                          expiresAt: Option<int>, first: int, second: int, p: Parts, k: nat, e: nat)
    requires Sensible(p)
  {
    && !Misshapen(q, Decimal(k), printed) && expiresAt.Some? && expiresAt.value > first
    && Costs(p.n, p.letter, k) && SingleUse(p.fields) && WellTagged(p.fields)
    && (wanted.Some? ==> Described(p.fields, wanted.value))
    && AssembledSigned(p, curve)
    && second < (p.time + e) * 1000 <= 9_007_199_254_740_991
  }

  ghost predicate AssembledSigned(p: Parts, curve: Curve)
    requires Sensible(p)
  {
    AssembledIsAscii(p);
    AssembledParts(p);
    SignatureHolds(p, SigningBytes(Assemble(p)), curve)
  }

  /** The fields of an assembled invoice are the only ones it can be read as. */
  lemma OnlyItsFields(p: Parts, sats: nat, fields: seq<Field>)
    requires Sensible(p) && Asks(Assemble(p), sats, fields)
    ensures fields == p.fields
  {
    AssembledParts(p);
    PrintIsInjective(fields, p.fields);
  }

  lemma AsksIff(p: Parts, sats: nat)
    requires Sensible(p)
    ensures Asks(Assemble(p), sats, p.fields) <==>
              Costs(p.n, p.letter, sats) && SingleUse(p.fields) && WellTagged(p.fields)
  {
    AssembledParts(p);
    AmountIff(p.n, p.letter, sats);
    if SingleUse(p.fields) { RequiredTagsIff(p.fields); }
  }

  lemma SignedAndLiveIff(p: Parts, curve: Curve, second: int, e: nat)
    requires Sensible(p) && SingleUse(p.fields) && Lasts(p.fields, e)
    ensures |Assemble(p).words| >= 111
    ensures SignedAndLive(Assemble(p), LastOf(p.fields), curve, second) <==>
              AssembledSigned(p, curve) && second < (p.time + e) * 1000 <= 9_007_199_254_740_991
  {
    SignedIff(p, curve);
    ExpiryOfPrinted(p, e);
    ReadablePrefix(p);
  }

  lemma ReadablePrefix(p: Parts)
    requires Sensible(p)
    ensures ParsePrefix(Assemble(p).prefix).Some?
  {
    var m := if p.letter == "" then Whole else if p.letter == "m" then Milli else if p.letter == "u" then Micro
             else if p.letter == "n" then Nano else Pico;
    PrefixRoundTrip(p.n, m);
    assert p.letter == Letter(m);
  }

  lemma SoundIff(q: Quote, printed: Json -> string, expiresAt: Option<int>, first: int, p: Parts, k: nat)
    requires Sensible(p) && q.invoice == Some(Assemble(p))
    ensures Sound(q, Decimal(k), printed, expiresAt, first, p.fields) <==>
              && !Misshapen(q, Decimal(k), printed) && expiresAt.Some? && expiresAt.value > first
              && Costs(p.n, p.letter, k) && SingleUse(p.fields) && WellTagged(p.fields)
  {
    DecimalValue(k);
    ShapeIff(q, Decimal(k), printed);
    AsksIff(p, k);
  }

  lemma WantedIff(fields: seq<Field>, wanted: Option<string>)
    requires SingleUse(fields)
    ensures HashAgrees(wanted, LastOf(fields)) <==> (wanted.Some? ==> Described(fields, wanted.value))
  {
    if wanted.Some? { HashIff(fields, wanted.value); }
  }

  lemma AcceptableWithItsFields(q: Quote, wanted: Option<string>, printed: Json -> string, curve: Curve,
                                expiresAt: Option<int>, first: int, second: int, p: Parts, k: nat, e: nat)
    requires Sensible(p) && q.invoice == Some(Assemble(p)) && Lasts(p.fields, e)
    ensures Acceptable(q, Decimal(k), wanted, printed, curve, expiresAt, first, second, p.fields) <==>
              InOrder(q, wanted, printed, curve, expiresAt, first, second, p, k, e)
  {
    SoundIff(q, printed, expiresAt, first, p, k);
    if SingleUse(p.fields) {
      SignedAndLiveIff(p, curve, second, e);
      WantedIff(p.fields, wanted);
    }
  }

  /**
    A quote with an invoice assembled from these parts, asked for k satoshis, is acceptable exactly when
    it is well shaped and unexpired at the first clock reading, the invoice costs k satoshis, repeats no
    single-use tag, has the required tags, spells the wanted hash, is signed, and outlives the second
    clock reading with an expiry that JavaScript numbers hold exactly.
   */
  lemma QuoteIsAcceptableIff(q: Quote, wanted: Option<string>, printed: Json -> string, curve: Curve,
                             expiresAt: Option<int>, first: int, second: int, p: Parts, k: nat, e: nat)
    requires Sensible(p) && q.invoice == Some(Assemble(p)) && Lasts(p.fields, e)
    ensures (exists fields :: Acceptable(q, Decimal(k), wanted, printed, curve, expiresAt, first, second, fields)) <==>
              InOrder(q, wanted, printed, curve, expiresAt, first, second, p, k, e)
  {
    AcceptableWithItsFields(q, wanted, printed, curve, expiresAt, first, second, p, k, e);
    DecimalValue(k);
    forall fields | Acceptable(q, Decimal(k), wanted, printed, curve, expiresAt, first, second, fields)
      ensures fields == p.fields
    {
      OnlyItsFields(p, k, fields);
    }
  }
}
