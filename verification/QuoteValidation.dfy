/**
  validateLightningQuote of src/flashnet/lightning-quote-validation.ts: the amount of the invoice,
  its numbers, its required tags, its signature rules and its lifetime. The bech32 checksum, the
  curve and the printing of JSON values are foreign code and come in as values and functions.
 */
module QuoteValidation {
  import opened Common
  import opened Bolt11Tags
  import opened InvoiceWords

  // ----- the amount in the human-readable part

  datatype Multiplier = Whole | Milli | Micro | Nano | Pico

  function Letter(m: Multiplier): string {
    match m
    case Whole => ""
    case Milli => "m"
    case Micro => "u"
    case Nano => "n"
    case Pico => "p"
  }

  /** Millisatoshi per unit, except that one pico-BTC unit is a tenth of a millisatoshi. */
  function Factor(m: Multiplier): nat {
    match m
    case Whole => 100_000_000_000
    case Milli => 100_000_000
    case Micro => 100_000
    case Nano => 100
    case Pico => 1
  }

  /** The amount in pico-BTC, the smallest unit of BOLT #11. */
  function PicoBtc(n: nat, m: Multiplier): nat {
    match m
    case Whole => n * 1_000_000_000_000
    case Milli => n * 1_000_000_000
    case Micro => n * 1_000_000
    case Nano => n * 1_000
    case Pico => n
  }

  const PICO_PER_SAT := 10_000

  predicate AmountMatches(n: nat, m: Multiplier, sats: nat) {
    var raw := n * Factor(m);
    if m == Pico then raw % 10 == 0 && raw / 10 == sats * 1000 else raw == sats * 1000
  }

  lemma TenthOf(n: nat, k: nat)
    ensures n % 10 == 0 && n / 10 == k <==> n == 10 * k
  {
  }

  /** Whichever multiplier is used, the amount is accepted exactly when it is the requested satoshis. */
  lemma AmountMatchesIff(n: nat, m: Multiplier, sats: nat)
    ensures AmountMatches(n, m, sats) <==> PicoBtc(n, m) == sats * PICO_PER_SAT
  {
    match m
    case Whole => assert n * Factor(m) == n * 100_000_000_000;
    case Milli => assert n * Factor(m) == n * 100_000_000;
    case Micro => assert n * Factor(m) == n * 100_000;
    case Nano => assert n * Factor(m) == n * 100;
    case Pico => TenthOf(n, sats * 1000);
  }

  predicate Digits(s: string) {
    s != "" && forall i :: 0 <= i < |s| ==> Digit(s[i])
  }

  function Value(s: string): nat
    requires forall i :: 0 <= i < |s| ==> Digit(s[i])
  {
    if s == "" then 0
    else
      assert Digit(s[|s| - 1]);
      Value(s[..|s| - 1]) * 10 + (s[|s| - 1] as int - '0' as int)
  }

  function Decimal(n: nat): (s: string)
    ensures Digits(s)
  {
    var d := [(n % 10 + '0' as int) as char];
    if n < 10 then d else Decimal(n / 10) + d
  }

  lemma {:induction false} DecimalValue(n: nat)
    ensures Value(Decimal(n)) == n
  {
    if n >= 10 {
      DecimalValue(n / 10);
      assert Decimal(n)[..|Decimal(n)| - 1] == Decimal(n / 10);
    }
  }

  function MultiplierOf(c: char): Option<Multiplier> {
    match c
    case 'm' => Some(Milli)
    case 'u' => Some(Micro)
    case 'n' => Some(Nano)
    case 'p' => Some(Pico)
    case _ => None
  }

  datatype Amount = Amount(n: nat, unit: Multiplier)

  /** The pattern lnbc, digits, optional multiplier letter. */
  function ParsePrefix(prefix: string): Option<Amount> {
    if |prefix| < 5 || prefix[..4] != "lnbc" then None
    else
      var last := MultiplierOf(prefix[|prefix| - 1]);
      var digits := if last.Some? then prefix[4..|prefix| - 1] else prefix[4..];
      if !Digits(digits) then None
      else Some(Amount(Value(digits), if last.Some? then last.value else Whole))
  }

  /** Every amount, printed in decimal with its multiplier, is read back. */
  lemma PrefixRoundTrip(n: nat, m: Multiplier)
    ensures ParsePrefix("lnbc" + Decimal(n) + Letter(m)) == Some(Amount(n, m))
  {
    var d := Decimal(n);
    var p := "lnbc" + d + Letter(m);
    DecimalValue(n);
    assert p[..4] == "lnbc";
    if m == Whole {
      assert p == "lnbc" + d && p[4..] == d;
      assert p[|p| - 1] == d[|d| - 1];
    } else {
      assert p[|p| - 1] == Letter(m)[0];
      assert p[4..|p| - 1] == d;
    }
  }

  // ----- base-32 numbers

  function Number(words: seq<Word>): nat {
    if words == [] then 0
    else
      var low: int := words[|words| - 1];
      Number(words[..|words| - 1]) * 32 + low
  }

  function Pow32(k: nat): (p: nat)
    ensures p > 0
  {
    if k == 0 then 1 else Pow32(k - 1) * 32
  }

  /** The timestamp as an invoice prints it: digit i is floor(t / 32^(6 - i)) mod 32. */
  function TimestampWords(t: nat): (w: seq<Word>)
    ensures |w| == TIMESTAMP_WORDS && forall i :: 0 <= i < TIMESTAMP_WORDS ==> w[i] == t / Pow32(6 - i) % 32
  {
    seq(TIMESTAMP_WORDS, i requires 0 <= i < TIMESTAMP_WORDS => t / Pow32(6 - i) % 32)
  }

  lemma {:induction false} SmallerQuotient(d: nat, q: nat, q': nat)
    requires q < q'
    ensures d * q + d <= d * q'
    decreases q'
  {
    assert d * q' == d * (q' - 1) + d;
    if q + 1 < q' { SmallerQuotient(d, q, q' - 1); }
  }

  lemma SameQuotient(d: nat, q: nat, r: nat, q': nat, r': nat)
    requires d * q + r == d * q' + r' && r < d && r' < d
    ensures q == q'
  {
    if q < q' { SmallerQuotient(d, q, q'); }
    if q' < q { SmallerQuotient(d, q', q); }
  }

  lemma QuotientIsUnique(n: nat, d: nat, q: nat, r: nat)
    requires d > 0 && n == d * q + r && r < d
    ensures n / d == q
  {
    SameQuotient(d, q, r, n / d, n % d);
  }

  lemma DivideTwice(n: nat, d: nat)
    requires d > 0
    ensures n / (d * 32) == n / d / 32
  {
    var q, r := n / d, n % d;
    var p, s := q / 32, q % 32;
    assert n == d * q + r;
    Regroup(d, q, p, s);
    QuotientIsUnique(n, d * 32, p, d * s + r);
  }

  lemma Regroup(d: nat, q: nat, p: nat, s: nat)
    requires q == 32 * p + s && s < 32
    ensures d * q == (d * 32) * p + d * s && d * s <= d * 31
  {
  }

  /** The first j digits are the number without its last 7 - j digits. */
  lemma {:induction false} LeadingDigits(t: nat, j: nat)
    requires t < Pow32(TIMESTAMP_WORDS) && j <= TIMESTAMP_WORDS
    ensures Number(TimestampWords(t)[..j]) == t / Pow32(TIMESTAMP_WORDS - j)
  {
    var w := TimestampWords(t);
    if j == 0 {
      QuotientIsUnique(t, Pow32(TIMESTAMP_WORDS), 0, t);
    } else {
      LeadingDigits(t, j - 1);
      assert w[..j][..j - 1] == w[..j - 1];
      DivideTwice(t, Pow32(TIMESTAMP_WORDS - j));
      assert Pow32(TIMESTAMP_WORDS - (j - 1)) == Pow32(TIMESTAMP_WORDS - j) * 32;
    }
  }

  lemma PowerOfSeven()
    ensures Pow32(7) == 0x8_0000_0000
  {
  }

  /** Reading the seven timestamp words gives back every 35-bit timestamp. */
  lemma TimestampRoundTrip(t: nat)
    requires t < 0x8_0000_0000
    ensures Number(TimestampWords(t)) == t
  {
    PowerOfSeven();
    AllDigitsRead(t);
  }

  lemma AllDigitsRead(t: nat)
    requires t < Pow32(TIMESTAMP_WORDS)
    ensures Number(TimestampWords(t)) == t
  {
    LeadingDigits(t, TIMESTAMP_WORDS);
    var w := TimestampWords(t);
    assert w[..TIMESTAMP_WORDS] == w;
    assert t / Pow32(0) == t;
  }

  // ----- the quote

  /** A value of the provider's JSON answer. */
  datatype Json =
    | Undefined | Null | Flag(on: bool) | Num(n: real) | Text(text: string) | List(items: seq<Json>) | Object

  predicate Nullish(j: Json) {
    j.Undefined? || j.Null?
  }

  predicate Falsy(j: Json) {
    Nullish(j) || j == Flag(false) || j == Num(0.0) || j == Text("")
  }

  /** A pattern is matched against the text of a value, which for anything but a text is printed first. */
  function TextOf(j: Json, printed: Json -> string): string {
    if j.Text? then j.text else printed(j)
  }

  datatype Invoice = Invoice(prefix: string, words: seq<Word>)

  class Quote {
    const quoteId: Json
    const receiveRequestId: Json
    const amountIn: Json
    const flexibleAmount: Json
    const amountMode: Json
    const feeAsset: Json
    const route: Json
    const feeBps: Json
    /** estimatedOut, feeAmount, roundingFeeAmount and totalFeeAmount. */
    const amounts: (Json, Json, Json, Json)
    const lockedMinAmountOut: Json
    /** The decoded deposit address; None when it is not bech32. */
    const invoice: Option<Invoice>
    /** Milliseconds; None when the text is not a date. */
    var expiresAt: Option<int>

    constructor (quoteId: Json, receiveRequestId: Json, amountIn: Json, flexibleAmount: Json, amountMode: Json,
                 feeAsset: Json,
                 route: Json, feeBps: Json, amounts: (Json, Json, Json, Json), lockedMinAmountOut: Json,
                 invoice: Option<Invoice>, expiresAt: Option<int>)
      ensures this.quoteId == quoteId && this.receiveRequestId == receiveRequestId && this.amountIn == amountIn
      ensures this.flexibleAmount == flexibleAmount && this.amountMode == amountMode && this.feeAsset == feeAsset
      ensures this.route == route && this.feeBps == feeBps && this.amounts == amounts
      ensures this.lockedMinAmountOut == lockedMinAmountOut && this.invoice == invoice && this.expiresAt == expiresAt
    {
      this.quoteId, this.receiveRequestId := quoteId, receiveRequestId;
      this.amountIn, this.flexibleAmount := amountIn, flexibleAmount;
      this.amountMode, this.feeAsset, this.route, this.feeBps := amountMode, feeAsset, route, feeBps;
      this.amounts, this.lockedMinAmountOut := amounts, lockedMinAmountOut;
      this.invoice, this.expiresAt := invoice, expiresAt;
    }
  }

  predicate AmountText(s: string) {
    Digits(s) && |s| <= 38
  }

  predicate AmountField(j: Json) {
    j.Text? && AmountText(j.text)
  }

  predicate WellShaped(q: Quote, sats: string, printed: Json -> string) {
    && q.quoteId.Text? && |q.quoteId.text| >= 2 && q.quoteId.text[..2] == "q_"
    && q.receiveRequestId.Text? && q.receiveRequestId.text != ""
    && q.amountIn == Text(sats) && Falsy(q.flexibleAmount)
    && (Nullish(q.amountMode) || q.amountMode == Text("exact_in"))
    && q.feeAsset == Text("USDB")
    && q.route.List? && (forall i :: 0 <= i < |q.route.items| ==> q.route.items[i].Text?)
    && q.feeBps.Num? && q.feeBps.n == q.feeBps.n.Floor as real && q.feeBps.n >= 0.0
    && AmountField(q.amounts.0) && AmountField(q.amounts.1) && AmountField(q.amounts.2) && AmountField(q.amounts.3)
    && (Nullish(q.lockedMinAmountOut) || AmountText(TextOf(q.lockedMinAmountOut, printed)))
  }

  // ----- the tags

  const PAYMENT_HASH: Word := 1
  const EXPIRY: Word := 6
  const DESCRIPTION: Word := 13
  const SECRET: Word := 16
  const PAYEE: Word := 19
  const DESCRIPTION_HASH: Word := 23

  predicate RequiredTags(tags: Tags) {
    && PAYMENT_HASH in tags && |tags[PAYMENT_HASH]| == 52
    && SECRET in tags && |tags[SECRET]| == 52
    && (DESCRIPTION in tags) != (DESCRIPTION_HASH in tags)
    && (DESCRIPTION_HASH in tags ==> |tags[DESCRIPTION_HASH]| == 52)
  }

  function Lifetime(tags: Tags): nat {
    if EXPIRY in tags then Number(tags[EXPIRY]) else 3600
  }

  /** When the invoice expires, in milliseconds. */
  function InvoiceExpiry(words: seq<Word>, tags: Tags): nat
    requires |words| >= TIMESTAMP_WORDS
  {
    (Number(words[..TIMESTAMP_WORDS]) + Lifetime(tags)) * 1000
  }

  function HexDigit(n: int): char
    requires 0 <= n < 16
  {
    "0123456789abcdef"[n]
  }

  function Hex(bytes: seq<Byte>): string {
    if bytes == [] then "" else [HexDigit(bytes[0] / 16), HexDigit(bytes[0] % 16)] + Hex(bytes[1..])
  }

  function Lower(s: string): string {
    if s == "" then "" else [LowerChar(s[0])] + Lower(s[1..])
  }

  /** Hexadecimal text names one byte string. */
  lemma {:induction false} HexIsInjective(a: seq<Byte>, b: seq<Byte>)
    requires Hex(a) == Hex(b)
    ensures a == b
  {
    if a != [] && b != [] {
      assert Hex(a)[2..] == Hex(a[1..]) && Hex(b)[2..] == Hex(b[1..]);
      HexIsInjective(a[1..], b[1..]);
      assert Hex(a)[0] == Hex(b)[0] && Hex(a)[1] == Hex(b)[1];
      SameHexDigit(a[0] / 16, b[0] / 16);
      SameHexDigit(a[0] % 16, b[0] % 16);
      assert a == [a[0]] + a[1..] && b == [b[0]] + b[1..];
    }
  }

  lemma SameHexDigit(m: int, n: int)
    requires 0 <= m < 16 && 0 <= n < 16 && HexDigit(m) == HexDigit(n)
    ensures m == n
  {
  }

  /** The wanted description hash is the one the invoice carries. */
  predicate HashAgrees(wanted: Option<string>, tags: Tags) {
    wanted.Some? ==>
      DESCRIPTION_HASH in tags && FromWords(tags[DESCRIPTION_HASH]).Some?
      && Hex(FromWords(tags[DESCRIPTION_HASH]).value) == Lower(wanted.value)
  }

  /** The invoice lacks a description hash, or carries a readable one that is not the wanted one. */
  predicate HashDiffers(wanted: Option<string>, tags: Tags) {
    && wanted.Some?
    && (DESCRIPTION_HASH in tags ==> FromWords(tags[DESCRIPTION_HASH]).Some? && !HashAgrees(wanted, tags))
  }

  // ----- the signature

  /**
    recover gets the recovery id and signature, and the signed bytes; verify gets the signed bytes, the
    key and the signature.
   */
  datatype Curve = Curve(
    recover: (seq<Byte>, seq<Byte>) -> Option<seq<Byte>>,
    verify: (seq<Byte>, seq<Byte>, seq<Byte>) -> bool)

  const CURVE_ORDER: nat := 0xfffffffffffffffffffffffffffffffebaaedce6af48a03bbfd25e8cd0364141

  function BigEndian(bytes: seq<Byte>): nat {
    if bytes == [] then 0 else BigEndian(bytes[..|bytes| - 1]) * 256 + bytes[|bytes| - 1]
  }

  predicate Ascii(s: string) {
    forall i :: 0 <= i < |s| ==> s[i] as int < 128
  }

  function AsciiBytes(s: string): (b: seq<Byte>)
    requires Ascii(s)
    ensures |b| == |s| && forall i :: 0 <= i < |s| ==> b[i] == s[i] as int
  {
    seq(|s|, i requires 0 <= i < |s| => s[i] as int)
  }

  lemma AmountPrefixIsAscii(prefix: string)
    requires ParsePrefix(prefix).Some?
    ensures Ascii(prefix)
  {
    var digits := if MultiplierOf(prefix[|prefix| - 1]).Some? then prefix[4..|prefix| - 1] else prefix[4..];
    assert Digits(digits);
    forall i | 0 <= i < |prefix| ensures prefix[i] as int < 128 {
      if i < 4 {
        assert prefix[i] == prefix[..4][i];
      } else if i - 4 < |digits| {
        assert prefix[i] == digits[i - 4] && Digit(digits[i - 4]);
      }
    }
  }

  /** The words up to the signature, and the words of the signature. */
  function Unsigned(words: seq<Word>): seq<Word>
    requires |words| >= SIGNATURE_WORDS
  {
    words[..|words| - SIGNATURE_WORDS]
  }

  function SignatureWords(words: seq<Word>): (w: seq<Word>)
    requires |words| >= SIGNATURE_WORDS
    ensures |w| == SIGNATURE_WORDS
  {
    words[|words| - SIGNATURE_WORDS..]
  }

  /** What is signed: the prefix, and the words up to the signature as bytes. */
  function SigningBytes(inv: Invoice): seq<Byte>
    requires Ascii(inv.prefix) && |inv.words| >= SIGNATURE_WORDS
  {
    AsciiBytes(inv.prefix) + SignedBytes(Unsigned(inv.words))
  }

  /** The 104 signature words always are 65 bytes. */
  function SignatureBytes(words: seq<Word>): (sig: seq<Byte>)
    requires |words| >= SIGNATURE_WORDS
    ensures |sig| == 65 && FromWords(SignatureWords(words)) == Some(sig)
  {
    WholeWords(SignatureWords(words));
    FromWords(SignatureWords(words)).value
  }

  /** The key the signature is checked against: the payee of the invoice, or the recovered one. */
  function SigningKey(inv: Invoice, tags: Tags, curve: Curve): Option<seq<Byte>>
    requires Ascii(inv.prefix) && |inv.words| >= SIGNATURE_WORDS
  {
    var sig := SignatureBytes(inv.words);
    if PAYEE in tags then
      var key := FromWords(tags[PAYEE]);
      if BigEndian(sig[32..64]) > CURVE_ORDER / 2 || key.None? || |key.value| != 33 then None else key
    else curve.recover([sig[64]] + sig[..64], SigningBytes(inv))
  }

  predicate Signed(inv: Invoice, tags: Tags, curve: Curve)
    requires Ascii(inv.prefix) && |inv.words| >= SIGNATURE_WORDS
  {
    var sig := SignatureBytes(inv.words);
    var key := SigningKey(inv, tags, curve);
    sig[64] <= 3 && key.Some? && curve.verify(SigningBytes(inv), key.value, sig[..64])
  }

  /** Two invoices of one shape with the same signed bytes and signature agree in every word and in the prefix. */
  lemma SignatureCoversInvoice(a: Invoice, b: Invoice)
    requires Ascii(a.prefix) && Ascii(b.prefix) && |a.prefix| == |b.prefix|
    requires |a.words| == |b.words| >= SIGNATURE_WORDS
    requires SigningBytes(a) == SigningBytes(b) && SignatureBytes(a.words) == SignatureBytes(b.words)
    ensures a == b
  {
    SameUnsigned(a.prefix, Unsigned(a.words), b.prefix, Unsigned(b.words));
    SameSignature(a.words, b.words);
    SameHalves(a.words, b.words, |a.words| - SIGNATURE_WORDS);
  }

  lemma SameUnsigned(p: string, x: seq<Word>, q: string, y: seq<Word>)
    requires Ascii(p) && Ascii(q) && |p| == |q| && |x| == |y|
    requires AsciiBytes(p) + SignedBytes(x) == AsciiBytes(q) + SignedBytes(y)
    ensures p == q && x == y
  {
    SameSigned(AsciiBytes(p), x, AsciiBytes(q), y);
    SamePrefix(p, q);
  }

  lemma SameHalves<T>(x: seq<T>, y: seq<T>, k: nat)
    requires k <= |x| == |y| && x[..k] == y[..k] && x[k..] == y[k..]
    ensures x == y
  {
    assert x == x[..k] + x[k..] && y == y[..k] + y[k..];
  }

  lemma SameSigned(p: seq<Byte>, x: seq<Word>, q: seq<Byte>, y: seq<Word>)
    requires |p| == |q| && |x| == |y| && p + SignedBytes(x) == q + SignedBytes(y)
    ensures p == q && x == y
  {
    SameParts(p, SignedBytes(x), q, SignedBytes(y));
    SignedBytesAreInjective(x, y);
  }

  lemma SameParts<T>(p: seq<T>, d: seq<T>, q: seq<T>, e: seq<T>)
    requires |p| == |q|
    ensures p + d == q + e <==> p == q && d == e
  {
    assert (p + d)[..|p|] == p && (q + e)[..|q|] == q && (p + d)[|p|..] == d && (q + e)[|q|..] == e;
  }

  lemma SameSignature(a: seq<Word>, b: seq<Word>)
    requires |a| == |b| >= SIGNATURE_WORDS && SignatureBytes(a) == SignatureBytes(b)
    ensures SignatureWords(a) == SignatureWords(b)
  {
    SameSignatureWords(SignatureWords(a), SignatureWords(b));
  }

  lemma SamePrefix(a: string, b: string)
    requires Ascii(a) && Ascii(b) && AsciiBytes(a) == AsciiBytes(b)
    ensures a == b
  {
    assert forall i :: 0 <= i < |a| ==> AsciiBytes(a)[i] == a[i] as int && AsciiBytes(b)[i] == b[i] as int;
  }

  lemma SameSignatureWords(a: seq<Word>, b: seq<Word>)
    requires |a| == |b| == SIGNATURE_WORDS && FromWords(a) == FromWords(b)
    ensures a == b
  {
    WholeWords(a);
    WholeWords(b);
    WordBitsAreInjective(a, b);
  }

  // ----- the verdict

  const MAX_SAFE_INTEGER := 9007199254740991

  datatype Verdict = Valid | InvalidQuote | DescriptionHashMismatch

  /** The prefix asks for exactly this amount. */
  ghost predicate AsksFor(prefix: string, sats: nat) {
    exists n: nat, m: Multiplier :: ParsePrefix(prefix) == Some(Amount(n, m)) && PicoBtc(n, m) == sats * PICO_PER_SAT
  }

  /** An invoice of exactly the requested amount, made of these fields. */
  ghost predicate Asks(inv: Invoice, sats: nat, fields: seq<Field>) {
    && AsksFor(inv.prefix, sats)
    && |inv.words| >= 111
    && Printing(Body(inv.words), fields) && SingleUse(fields)
    && RequiredTags(LastOf(fields))
  }

  /** The quote passes everything up to the description hash, at the first clock reading. */
  ghost predicate Sound(q: Quote?, sats: string, printed: Json -> string, expiresAt: Option<int>, first: int,
                        fields: seq<Field>)
    requires Digits(sats)
  {
    && q != null && WellShaped(q, sats, printed)
    && expiresAt.Some? && expiresAt.value > first
    && q.invoice.Some? && Asks(q.invoice.value, Value(sats), fields)
  }

  /** The invoice is signed and outlives the second clock reading. */
  ghost predicate SignedAndLive(inv: Invoice, tags: Tags, curve: Curve, second: int)
    requires |inv.words| >= 111
  {
    && ParsePrefix(inv.prefix).Some?
    && (AmountPrefixIsAscii(inv.prefix); Signed(inv, tags, curve))
    && second < InvoiceExpiry(inv.words, tags) <= MAX_SAFE_INTEGER
  }

  ghost predicate Acceptable(q: Quote?, sats: string, wanted: Option<string>, printed: Json -> string, curve: Curve,
                             expiresAt: Option<int>, first: int, second: int, fields: seq<Field>)
    requires Digits(sats)
  {
    && Sound(q, sats, printed, expiresAt, first, fields)
    && HashAgrees(wanted, LastOf(fields))
    && SignedAndLive(q.invoice.value, LastOf(fields), curve, second)
  }

  ghost predicate Misdescribed(q: Quote?, sats: string, wanted: Option<string>, printed: Json -> string,
                               expiresAt: Option<int>, first: int, fields: seq<Field>)
    requires Digits(sats)
  {
    Sound(q, sats, printed, expiresAt, first, fields) && HashDiffers(wanted, LastOf(fields))
  }

  /** The expiry of a quote, if there is a quote. */
  function ExpiryOf(q: Quote?): Option<int>
    reads q
  {
    if q == null then None else q.expiresAt
  }

  /**
    Validation with clock readings `first` and `second`. It is decided exactly: a quote is valid if
    and only if it is sound, its description hash agrees, its invoice is signed and still live; the
    hash is reported if and only if all before it was in order. On success the quote's expiry is cut
    to the invoice's own, and still lies after the first reading; on any failure the quote is untouched.
   */
  method ValidateLightningQuote(q: Quote?, sats: string, wanted: Option<string>, printed: Json -> string, curve: Curve,
                                first: int, second: int) returns (verdict: Verdict)
    requires Digits(sats) && first <= second
    modifies q
    ensures verdict == Valid <==>
              exists fields :: Acceptable(q, sats, wanted, printed, curve, old(ExpiryOf(q)), first, second, fields)
    ensures verdict == DescriptionHashMismatch <==>
              exists fields :: Misdescribed(q, sats, wanted, printed, old(ExpiryOf(q)), first, fields)
    ensures verdict == Valid ==>
              && ExpiryOf(q).Some? && ExpiryOf(q).value > first
              && forall fields ::
                   Acceptable(q, sats, wanted, printed, curve, old(ExpiryOf(q)), first, second, fields) ==>
                     ExpiryOf(q).value ==
                     Min(old(ExpiryOf(q)).value, InvoiceExpiry(q.invoice.value.words, LastOf(fields)))
    ensures verdict != Valid ==> ExpiryOf(q) == old(ExpiryOf(q))
  {
    var reading := Inspect(q, sats, printed, first);
    if reading.None? {
      return InvalidQuote;
    }
    var tags, inv := reading.value, q.invoice.value;
    ghost var fields :| Sound(q, sats, printed, q.expiresAt, first, fields);
    SoundFieldsAreUnique(q, sats, printed, q.expiresAt, first, fields);
    assert LastOf(fields) == tags;
    var hash := CheckHash(wanted, tags);
    if hash != Valid {
      assert hash == DescriptionHashMismatch ==>
        Misdescribed(q, sats, wanted, printed, old(ExpiryOf(q)), first, fields);
      return hash;
    }
    AmountPrefixIsAscii(inv.prefix);
    var signed := CheckSignature(inv, tags, curve);
    var invoiceExpiry := InvoiceExpiry(inv.words, tags);
    if !signed || invoiceExpiry > MAX_SAFE_INTEGER || invoiceExpiry <= second {
      return InvalidQuote;
    }
    assert Acceptable(q, sats, wanted, printed, curve, old(ExpiryOf(q)), first, second, fields);
    q.expiresAt := Some(Min(q.expiresAt.value, invoiceExpiry));
    return Valid;
  }

  /** The tags of a sound quote; None for any other. */
  method Inspect(q: Quote?, sats: string, printed: Json -> string, first: int) returns (tags: Option<Tags>)
    requires Digits(sats)
    ensures tags.Some? <==> exists fields :: Sound(q, sats, printed, ExpiryOf(q), first, fields)
    ensures forall fields :: Sound(q, sats, printed, ExpiryOf(q), first, fields) ==> tags == Some(LastOf(fields))
  {
    if q == null || !WellShaped(q, sats, printed) {
      return None;
    }
    if q.expiresAt.None? || q.expiresAt.value <= first || q.invoice.None? {
      return None;
    }
    tags := ReadInvoice(q.invoice.value, Value(sats));
    if tags.Some? {
      ghost var fields :| Asks(q.invoice.value, Value(sats), fields);
      assert Sound(q, sats, printed, ExpiryOf(q), first, fields);
    }
  }

  lemma SoundFieldsAreUnique(q: Quote?, sats: string, printed: Json -> string, expiresAt: Option<int>, first: int,
                             fields: seq<Field>)
    requires Digits(sats) && Sound(q, sats, printed, expiresAt, first, fields)
    ensures forall other :: Sound(q, sats, printed, expiresAt, first, other) ==> other == fields
  {
    ScanIff(Body(q.invoice.value.words));
  }

  /** The description hash: as wanted, not as wanted, or not readable. */
  method CheckHash(wanted: Option<string>, tags: Tags) returns (verdict: Verdict)
    ensures verdict == Valid <==> HashAgrees(wanted, tags)
    ensures verdict == DescriptionHashMismatch <==> HashDiffers(wanted, tags)
  {
    if wanted.None? {
      return Valid;
    }
    if DESCRIPTION_HASH !in tags {
      return DescriptionHashMismatch;
    }
    var hash := FromWords(tags[DESCRIPTION_HASH]);
    if hash.None? {
      return InvalidQuote;
    }
    return if Hex(hash.value) == Lower(wanted.value) then Valid else DescriptionHashMismatch;
  }

  /** The tags of an invoice that asks for the amount; None for any other. */
  method ReadInvoice(inv: Invoice, sats: nat) returns (tags: Option<Tags>)
    ensures tags.Some? <==> exists fields :: Asks(inv, sats, fields)
    ensures forall fields :: Asks(inv, sats, fields) ==> tags == Some(LastOf(fields))
  {
    var amount := ParsePrefix(inv.prefix);
    if amount.None? || |inv.words| < 111 {
      return None;
    }
    AmountMatchesIff(amount.value.n, amount.value.unit, sats);
    if !AmountMatches(amount.value.n, amount.value.unit, sats) {
      return None;
    }
    var reading, end := ReadTags(inv.words);
    if reading.Failed? || !RequiredTags(reading.tags) {
      return None;
    }
    ghost var fields :| Printing(Body(inv.words), fields) && SingleUse(fields);
    assert Asks(inv, sats, fields);
    return Some(reading.tags);
  }

  /** The signature part, with its recovery id, low-S and key length rules. */
  method CheckSignature(inv: Invoice, tags: Tags, curve: Curve) returns (ok: bool)
    requires Ascii(inv.prefix) && |inv.words| >= SIGNATURE_WORDS
    ensures ok == Signed(inv, tags, curve)
  {
    var signature := SignatureBytes(inv.words);
    if signature[64] > 3 {
      return false;
    }
    var signing := Message(inv);
    var pubkey: Option<seq<Byte>>;
    if PAYEE in tags {
      if BigEndian(signature[32..64]) > CURVE_ORDER / 2 {
        return false;
      }
      pubkey := FromWords(tags[PAYEE]);
      if pubkey.None? || |pubkey.value| != 33 {
        return false;
      }
    } else {
      pubkey := curve.recover([signature[64]] + signature[..64], signing);
      if pubkey.None? {
        return false;
      }
    }
    return curve.verify(signing, pubkey.value, signature[..64]);
  }

  method Message(inv: Invoice) returns (signing: seq<Byte>)
    requires Ascii(inv.prefix) && |inv.words| >= SIGNATURE_WORDS
    ensures signing == SigningBytes(inv)
  {
    var end := |inv.words| - SIGNATURE_WORDS;
    var unsigned := PadToBytes(inv.words[..end]);
    WholeWords(unsigned);
    var data := FromWords(unsigned);
    signing := AsciiBytes(inv.prefix) + data.value[..(end * 5 + 7) / 8];
  }

  /** n five-bit words end inside a byte. */
  predicate EndsInByte(n: nat) {
    (n * 5) % 8 != 0
  }

  lemma FiveAndEight(n: nat)
    ensures EndsInByte(n) <==> n % 8 != 0
  {
  }

  /** The signing data is padded to whole bytes with the fewest zero words. */
  method PadToBytes(unsigned: seq<Word>) returns (padded: seq<Word>)
    ensures padded == Padded(unsigned)
    ensures |padded| % 8 == 0 && |unsigned| <= |padded| < |unsigned| + 8
  {
    padded := unsigned;
    ghost var target := Padded(unsigned);
    FiveAndEight(|padded|);
    while EndsInByte(|padded|)
      invariant |unsigned| <= |padded| <= |target| && padded <= target
      invariant EndsInByte(|padded|) <==> |padded| % 8 != 0
      decreases |target| - |padded|
    {
      padded := padded + [0];
      FiveAndEight(|padded|);
    }
    LessThanEightApart(|padded|, |target|);
  }

  lemma LessThanEightApart(a: nat, b: nat)
    requires a % 8 == 0 && b % 8 == 0 && a <= b < a + 8
    ensures a == b
  {
  }
}
