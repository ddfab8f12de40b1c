/**
  Spellings that cannot free a name: which letters and digits imitate each other, and what separators,
  letter case, doubled letters and the pairs `rn` and `vv` leave of a verdict.
 */
module ReservedSpelling {
  import opened Common
  import opened NameSegmentation
  import opened ReservedNames
  import opened ReservedDictionary
  import opened ReservedCompounds

  // ----- characters that look alike

  /** The two characters imitate each other. */
  predicate SameLook(a: char, b: char) {
    || a == b
    || (a in {'0', 'o'} && b in {'0', 'o'})
    || (a in {'1', 'i', 'l'} && b in {'1', 'i', 'l'})
    || (a in {'2', 'z'} && b in {'2', 'z'})
    || (a in {'3', 'e'} && b in {'3', 'e'})
    || (a in {'4', 'a'} && b in {'4', 'a'})
    || (a in {'5', 's'} && b in {'5', 's'})
    || (a in {'6', '9', 'g', 'q'} && b in {'6', '9', 'g', 'q'})
    || (a in {'7', 't'} && b in {'7', 't'})
    || (a in {'8', 'b'} && b in {'8', 'b'})
  }

  /** Two characters fold to one exactly when they look alike. */
  lemma LookalikeIff(a: char, b: char)
    ensures Lookalike(a) == Lookalike(b) <==> SameLook(a, b)
  {
  }

  /**
    c imitates w: character by character alike, neighbours equal in one exactly where they are in the
    other, and no pair in c that is read as one letter.
   */
  predicate Imitates(c: string, w: string) {
    && |c| == |w|
    && (forall i :: 0 <= i < |w| ==> SameLook(c[i], w[i]))
    && (forall i :: 0 <= i < |w| - 1 ==> (c[i] == c[i + 1] <==> w[i] == w[i + 1]))
    && NoPair(c, 'r', 'n') && NoPair(c, 'v', 'v')
  }

  lemma {:induction false} CollapseImitation(c: string, w: string)
    requires |c| == |w| && forall i :: 0 <= i < |w| ==> SameLook(c[i], w[i])
    requires forall i :: 0 <= i < |w| - 1 ==> (c[i] == c[i + 1] <==> w[i] == w[i + 1])
    ensures FoldSingles(Collapse(c)) == FoldSingles(Collapse(w))
  {
    if |w| == 1 {
      LookalikeIff(c[0], w[0]);
    } else if |w| > 1 {
      LookalikeIff(c[0], w[0]);
      CollapseImitation(c[1..], w[1..]);
    }
  }

  /** An imitation of a word without pairs reads like the word. */
  lemma ImitationReadsAlike(name: string, w: string)
    requires Orderly(w, 0) && Imitates(Compact(name), w)
    ensures Skeleton(name) == Skeleton(w)
  {
    OrderlySkeleton(w);
    NoPairNoFold(Compact(name), 'r', 'n', 'm');
    NoPairNoFold(Compact(name), 'v', 'v', 'w');
    CollapseImitation(Compact(name), w);
  }

  lemma ListedImitation(name: string, w: string)
    requires w in DEFAULT_RESERVED && Imitates(Compact(name), Compact(w))
    ensures Skeleton(name) == Skeleton(w)
  {
    ListedIsKnown(w);
    ImitationReadsAlike(name, Compact(w));
  }

  /** A listed word stays reserved when its letters are replaced by imitations, whatever is configured besides. */
  lemma ImitationIsReserved(name: string, w: string, extra: set<string>)
    requires w in DEFAULT_RESERVED && Imitates(Compact(name), Compact(w))
    ensures Reserved(name, RESERVED_SKELETONS + extra, FILLER_SKELETONS)
  {
    ListedImitation(name, w);
    ListedSkeletonIsLong(w);
    LookalikeIsReserved(name, RESERVED_SKELETONS + extra, FILLER_SKELETONS);
  }

  /** Two imitated words in one name are reserved exactly when neither `rn` nor `vv` forms where they meet. */
  lemma ImitatedPairIsReservedIff(u: string, v: string, first: string, second: string)
    requires first in DEFAULT_RESERVED && second in DEFAULT_RESERVED
    requires Imitates(Compact(u), Compact(first)) && Imitates(Compact(v), Compact(second))
    ensures var c, d := Compact(u), Compact(v);
            Reserved(u + v, RESERVED_SKELETONS, FILLER_SKELETONS) <==>
              && !(EndsIn(c, 'r') && StartsWith(d, 'n'))
              && !(EndsIn(c, 'v') && StartsWith(d, 'v'))
  {
    ListedImitation(u, first);
    ListedImitation(v, second);
    ListedSkeletonIsLong(first);
    WordReaches(Skeleton(first), RESERVED_SKELETONS + FILLER_SKELETONS);
    CompoundIsReservedIff(u, v);
    NoPairNoFold(Compact(u), 'r', 'n', 'm');
    NoPairNoFold(Compact(u), 'v', 'v', 'w');
  }

  // ----- separators and letter case

  /** A separator anywhere in a name changes nothing. */
  lemma SeparatorsAreFree(a: string, c: char, b: string, P: set<string>, F: set<string>)
    requires c == '.' || c == '_' || c == '-'
    ensures Reserved(a + [c] + b, P, F) <==> Reserved(a + b, P, F)
  {
    CompactMiddle(a, [c], b);
    CompactJoins(a, b);
    assert Compact([c]) == "";
    assert Compact(a) + "" + Compact(b) == Compact(a) + Compact(b);
  }

  /** Nor does the case of a letter. */
  lemma CaseIsFree(a: string, up: char, low: char, b: string, P: set<string>, F: set<string>)
    requires 'A' <= up <= 'Z' && 'a' <= low <= 'z' && up as int - 'A' as int == low as int - 'a' as int
    ensures Reserved(a + [up] + b, P, F) <==> Reserved(a + [low] + b, P, F)
  {
    CompactMiddle(a, [up], b);
    CompactMiddle(a, [low], b);
    assert LowerChar(up) == low;
  }

  lemma CompactMiddle(a: string, x: string, b: string)
    ensures Compact(a + x + b) == Compact(a) + Compact(x) + Compact(b)
  {
    CompactJoins(a + x, b);
    CompactJoins(a, x);
  }

  // ----- letters in the middle of a name

  lemma {:induction false} LeadingStopsAtLetter(a: string, r: string)
    requires r != "" && !Digit(r[0])
    ensures DropLeadingDigits(a + r) == DropLeadingDigits(a) + r
  {
    if a == "" {
      assert a + r == r;
    } else if Digit(a[0]) {
      assert (a + r)[1..] == a[1..] + r;
      LeadingStopsAtLetter(a[1..], r);
    }
  }

  lemma {:induction false} TrailingStopsAtLetter(r: string, b: string)
    requires r != "" && !Digit(r[|r| - 1])
    ensures DropTrailingDigits(r + b) == r + DropTrailingDigits(b)
  {
    if b == "" {
      assert r + b == r;
    } else if Digit(b[|b| - 1]) {
      assert (r + b)[..|r + b| - 1] == r + b[..|b| - 1];
      TrailingStopsAtLetter(r, b[..|b| - 1]);
    }
  }

  /** The text between two halves starts and ends with a letter or other non-digit. */
  predicate Middle(x: string) {
    x != "" && !Digit(x[0]) && !Digit(x[|x| - 1])
  }

  /** Dropping digits around a middle drops those of the halves. */
  lemma MiddleDrops(a: string, x: string, b: string)
    requires Middle(x)
    ensures var l, t := DropLeadingDigits(a), DropTrailingDigits(b);
            && DropTrailingDigits(a + x + b) == a + x + t
            && DropLeadingDigits(a + x + b) == l + x + b
            && DropTrailingDigits(l + x + b) == l + x + t
  {
    var l := DropLeadingDigits(a);
    LeadingStopsAtLetter(a, x + b);
    assert a + x + b == a + (x + b) && l + x + b == l + (x + b);
    TrailingStopsAtLetter(a + x, b);
    TrailingStopsAtLetter(l + x, b);
  }

  lemma ReadingsAre(c: string, p: string, q: string, r: string)
    requires DropTrailingDigits(c) == p && DropLeadingDigits(c) == q && DropTrailingDigits(q) == r
    requires c != "" && p != "" && q != "" && r != ""
    ensures Readings(c) - {""} == {c, p, q, r}
  {
  }

  /** The readings around a middle: each half with or without its outer digits. */
  lemma MiddleReadings(a: string, x: string, b: string)
    requires Middle(x)
    ensures var l, t := DropLeadingDigits(a), DropTrailingDigits(b);
            Readings(a + x + b) - {""} == {a + x + b, a + x + t, l + x + b, l + x + t}
  {
    var l, t := DropLeadingDigits(a), DropTrailingDigits(b);
    MiddleDrops(a, x, b);
    ReadingsAre(a + x + b, a + x + t, l + x + b, l + x + t);
  }

  /** x and y read alike between these two texts. */
  predicate ReadAlike(a: string, x: string, y: string, b: string) {
    Skeleton(a + x + b) == Skeleton(a + y + b)
  }

  /** Middles that read alike between all readings of the halves leave the verdict. */
  lemma MiddlesAreExchanged(a: string, x: string, y: string, b: string, n: string, m: string, P: set<string>,
                            F: set<string>)
    requires Middle(x) && Middle(y) && Compact(n) == a + x + b && Compact(m) == a + y + b
    requires var l, t := DropLeadingDigits(a), DropTrailingDigits(b);
             ReadAlike(a, x, y, b) && ReadAlike(a, x, y, t) && ReadAlike(l, x, y, b) && ReadAlike(l, x, y, t)
    ensures Reserved(n, P, F) <==> Reserved(m, P, F)
  {
    MiddleReadings(a, x, b);
    MiddleReadings(a, y, b);
    var l, t := DropLeadingDigits(a), DropTrailingDigits(b);
    SplitsOfFour(n, P, F, a + x + b, a + x + t, l + x + b, l + x + t);
    SplitsOfFour(m, P, F, a + y + b, a + y + t, l + y + b, l + y + t);
  }

  lemma SplitsOfFour(n: string, P: set<string>, F: set<string>, a: string, b: string, c: string, d: string)
    requires Variants(n) == {a, b, c, d}
    ensures Reserved(n, P, F) <==>
            || Splits(Skeleton(a), P, F) || Splits(Skeleton(b), P, F)
            || Splits(Skeleton(c), P, F) || Splits(Skeleton(d), P, F)
  {
    OneOfFour(Variants(n), P, F, a, b, c, d);
  }

  lemma OneOfFour(vs: set<string>, P: set<string>, F: set<string>, a: string, b: string, c: string, d: string)
    requires vs == {a, b, c, d}
    ensures (exists v :: v in vs && Splits(Skeleton(v), P, F)) <==>
            || Splits(Skeleton(a), P, F) || Splits(Skeleton(b), P, F)
            || Splits(Skeleton(c), P, F) || Splits(Skeleton(d), P, F)
  {
    assert a in vs && b in vs && c in vs && d in vs;
  }

  /** Lower-case, without separators. */
  predicate Plain(s: string) {
    forall i :: 0 <= i < |s| ==> !Separator(s[i]) && LowerChar(s[i]) == s[i]
  }

  lemma {:induction false} CompactIsPlain(s: string)
    ensures Plain(Compact(s))
  {
    if s != "" {
      CompactIsPlain(s[1..]);
    }
  }

  lemma PlainParts(a: string, x: string, b: string)
    requires Plain(a) && Plain(x) && Plain(b)
    ensures Compact(a + x + b) == a + x + b
    ensures Plain(DropLeadingDigits(a)) && Plain(DropTrailingDigits(b))
  {
    AlreadyCompact(a + x + b);
    DropLeadingEnds(a);
    DropTrailingEnds(b);
  }

  /** Middles that fold alike between any two plain texts leave the verdict of any name. */
  lemma ExchangeInNames(a: string, x: string, y: string, b: string, P: set<string>, F: set<string>)
    requires Plain(x) && Plain(y) && Middle(x) && Middle(y)
    requires forall p, q :: Plain(p) && Plain(q) && (EndsIn(p, 'v') ==> EndsIn(Compact(a), 'v')) ==>
               FoldAlike(p, x, y, q)
    ensures Reserved(a + x + b, P, F) <==> Reserved(a + y + b, P, F)
  {
    var c, d := Compact(a), Compact(b);
    CompactIsPlain(a);
    CompactIsPlain(b);
    CompactMiddle(a, x, b);
    CompactMiddle(a, y, b);
    AlreadyCompact(x);
    AlreadyCompact(y);
    var l, t := DropLeadingDigits(c), DropTrailingDigits(d);
    PlainParts(c, x, d);
    DropLeadingEnds(c);
    FoldedReadAlike(c, x, y, d);
    FoldedReadAlike(c, x, y, t);
    FoldedReadAlike(l, x, y, d);
    FoldedReadAlike(l, x, y, t);
    MiddlesAreExchanged(c, x, y, d, a + x + b, a + y + b, P, F);
  }

  predicate FoldAlike(p: string, x: string, y: string, q: string) {
    Collapse(FoldPairs(p + x + q)) == Collapse(FoldPairs(p + y + q))
  }

  lemma FoldedReadAlike(p: string, x: string, y: string, q: string)
    requires Plain(p) && Plain(x) && Plain(y) && Plain(q) && FoldAlike(p, x, y, q)
    ensures ReadAlike(p, x, y, q)
  {
    PlainParts(p, x, q);
    PlainParts(p, y, q);
  }

  // ----- pairs that read like one letter

  /** A text that no pair reaches into splits the fold. */
  lemma FoldAround(p: string, x: string, q: string, a: char, b: char, m: char)
    requires x != "" && m != a && x[0] != b && !EndsIn(FoldPair(x, a, b, m), a)
    ensures FoldPair(p + x + q, a, b, m) == FoldPair(p, a, b, m) + FoldPair(x, a, b, m) + FoldPair(q, a, b, m)
  {
    FoldAcross(p, x, a, b, m);
    FoldNonEmpty(x, a, b, m);
    FoldAcross(p + x, q, a, b, m);
  }

  lemma RnFoldsToM(p: string, q: string)
    ensures FoldAlike(p, "rn", "m", q)
  {
    assert FoldPair("rn", 'r', 'n', 'm') == "m";
    FoldAround(p, "rn", q, 'r', 'n', 'm');
    FoldAround(p, "m", q, 'r', 'n', 'm');
  }

  /** `rn` reads like `m`, in every name. */
  lemma RnReadsLikeM(a: string, b: string, P: set<string>, F: set<string>)
    ensures Reserved(a + "rn" + b, P, F) <==> Reserved(a + "m" + b, P, F)
  {
    forall p, q ensures FoldAlike(p, "rn", "m", q) {
      RnFoldsToM(p, q);
    }
    ExchangeInNames(a, "rn", "m", b, P, F);
  }

  lemma {:induction false} FoldVEnds(s: string)
    ensures EndsIn(FoldPair(s, 'v', 'v', 'w'), 'v') ==> EndsIn(s, 'v')
    decreases |s|
  {
    if |s| >= 2 {
      var k := if s[0] == 'v' && s[1] == 'v' then 2 else 1;
      FoldVEnds(s[k..]);
      if s[k..] != "" { FoldNonEmpty(s[k..], 'v', 'v', 'w'); }
    }
  }

  lemma VvFoldsToW(p: string, q: string)
    requires !EndsIn(p, 'v')
    ensures FoldAlike(p, "vv", "w", q)
  {
    var f, g := FoldPair(p, 'r', 'n', 'm'), FoldPair(q, 'r', 'n', 'm');
    FoldAround(p, "vv", q, 'r', 'n', 'm');
    FoldAround(p, "w", q, 'r', 'n', 'm');
    assert FoldPair("vv", 'r', 'n', 'm') == "vv";
    FoldPairEnds(p, 'r', 'n', 'm', 'v');
    FoldVEnds(f);
    FoldAcross(f, "vv", 'v', 'v', 'w');
    assert FoldPair("vv", 'v', 'v', 'w') == "w";
    FoldAcross(f + "vv", g, 'v', 'v', 'w');
    SealedFold(f, "w", g);
  }

  /** `vv` reads like `w`, in every name in which no v stands before it. */
  lemma VvReadsLikeW(a: string, b: string, P: set<string>, F: set<string>)
    requires !EndsIn(Compact(a), 'v')
    ensures Reserved(a + "vv" + b, P, F) <==> Reserved(a + "w" + b, P, F)
  {
    forall p, q | !EndsIn(p, 'v') ensures FoldAlike(p, "vv", "w", q) {
      VvFoldsToW(p, q);
    }
    ExchangeInNames(a, "vv", "w", b, P, F);
  }

  // ----- doubled letters

  lemma {:induction false} CollapseDoubled(p: string, c: char, q: string)
    ensures Collapse(p + [c, c] + q) == Collapse(p + [c] + q)
  {
    var x, y := p + [c, c] + q, p + [c] + q;
    if p == "" {
      assert x == [c] + y && x[1..] == y;
    } else {
      assert x[1..] == p[1..] + [c, c] + q && y[1..] == p[1..] + [c] + q;
      assert x[0] == y[0] && x[1] == y[1];
      CollapseDoubled(p[1..], c, q);
    }
  }

  lemma PlainFold(c: char, a: char, b: char, m: char)
    requires c != a
    ensures FoldPair([c], a, b, m) == [c] && FoldPair([c, c], a, b, m) == [c, c]
  {
    assert [c, c][1..] == [c];
  }

  lemma DoubledFolds(p: string, c: char, q: string)
    requires c != 'r' && c != 'n' && c != 'v'
    ensures FoldAlike(p, [c, c], [c], q)
  {
    PlainFold(c, 'r', 'n', 'm');
    FoldAround(p, [c, c], q, 'r', 'n', 'm');
    FoldAround(p, [c], q, 'r', 'n', 'm');
    var f, g := FoldPair(p, 'r', 'n', 'm'), FoldPair(q, 'r', 'n', 'm');
    PlainFold(c, 'v', 'v', 'w');
    FoldAround(f, [c, c], g, 'v', 'v', 'w');
    FoldAround(f, [c], g, 'v', 'v', 'w');
    CollapseDoubled(FoldPair(f, 'v', 'v', 'w'), c, FoldPair(g, 'v', 'v', 'w'));
  }

  /** A doubled letter reads like one, in every name, unless it is one of the letters of the pairs. */
  lemma DoublingIsFree(a: string, c: char, b: string, P: set<string>, F: set<string>)
    requires 'a' <= c <= 'z' && c != 'r' && c != 'n' && c != 'v'
    ensures Reserved(a + [c, c] + b, P, F) <==> Reserved(a + [c] + b, P, F)
  {
    forall p, q ensures FoldAlike(p, [c, c], [c], q) {
      DoubledFolds(p, c, q);
    }
    ExchangeInNames(a, [c, c], [c], b, P, F);
  }

  // ----- listed words, respelled

  /** A listed word stays reserved when an m of it is written `rn`. */
  lemma RnForMIsReserved(w: string, a: string, b: string, extra: set<string>)
    requires w in DEFAULT_RESERVED && w == a + "m" + b
    ensures Reserved(a + "rn" + b, RESERVED_SKELETONS + extra, FILLER_SKELETONS)
  {
    EveryEntryIsReserved(w, "", extra);
    RnReadsLikeM(a, b, RESERVED_SKELETONS + extra, FILLER_SKELETONS);
  }

  /** And when a letter of it is doubled. */
  lemma DoubledLetterIsReserved(w: string, a: string, c: char, b: string, extra: set<string>)
    requires w in DEFAULT_RESERVED && w == a + [c] + b && 'a' <= c <= 'z' && c != 'r' && c != 'n' && c != 'v'
    ensures Reserved(a + [c, c] + b, RESERVED_SKELETONS + extra, FILLER_SKELETONS)
  {
    EveryEntryIsReserved(w, "", extra);
    DoublingIsFree(a, c, b, RESERVED_SKELETONS + extra, FILLER_SKELETONS);
  }

  predicate OfDigits(s: string) {
    forall i :: 0 <= i < |s| ==> s[i] in {'0', '1', '2', '3', '4', '5', '6', '7', '8', '9'}
  }

  lemma OfDigitsIff(s: string)
    ensures OfDigits(s) <==> AllDigits(s)
  {
  }

  lemma ListedIsDecorable(before: string, w: string, after: string)
    requires w in DEFAULT_RESERVED
    ensures Decorable(before, Compact(w), after)
  {
    ListedIsKnown(w);
    OrderlyParts(Compact(w), 0);
  }

  /** And when it is decorated with any digits. */
  lemma DecoratedWordIsReserved(before: string, w: string, after: string, extra: set<string>)
    requires w in DEFAULT_RESERVED && OfDigits(before) && OfDigits(after)
    ensures Reserved(before + w + after, RESERVED_SKELETONS + extra, FILLER_SKELETONS)
  {
    OfDigitsIff(before);
    OfDigitsIff(after);
    ListedIsDecorable(before, w, after);
    EveryEntryIsReserved(w, "", extra);
    DigitsDoNotHelp(before, w, after, RESERVED_SKELETONS + extra, FILLER_SKELETONS);
  }

  lemma GuapAndSupport(u: string, v: string, first: string, second: string)
    requires u == "gu4p" && v == "supp0rt" && first == "guap" && second == "support"
    ensures Imitates(u, first) && Imitates(v, second) && !EndsIn(u, 'r') && !EndsIn(u, 'v')
    ensures first in BRANDS && second in ROLES && Plain(first) && Plain(second)
  {
  }

  /** `Gu4p.Supp0rt`, in whatever case and with whatever separators, is reserved. */
  lemma GuapSupportIsReserved(u: string, v: string, first: string, second: string)
    requires Compact(u) == "gu4p" && Compact(v) == "supp0rt" && first == "guap" && second == "support"
    ensures Reserved(u + v, RESERVED_SKELETONS, FILLER_SKELETONS)
  {
    GuapAndSupport(Compact(u), Compact(v), first, second);
    AlreadyCompact(first);
    AlreadyCompact(second);
    ImitatedPairIsReservedIff(u, v, first, second);
  }
}
